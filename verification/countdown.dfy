/**
 * Time display and the one-second countdowns of the client pages: the
 * `m:ss` rendering shared by the salad game and the registration page, and
 * the resend cooldown of the registration and e-mail confirmation pages.
 */
module Countdown {
  import Strings

  /** `RESEND_COOLDOWN_SECONDS`: two minutes between verification e-mails. */
  const ResendCooldown: nat := 120

  /** JavaScript `s.padStart(2, '0')`. */
  function PadTwo(s: string): (r: string)
    ensures |s| >= 2 ==> r == s
    ensures |s| < 2 ==> |r| == 2 && r[2 - |s|..] == s && forall i :: 0 <= i < 2 - |s| ==> r[i] == '0'
  {
    if |s| >= 2 then s else Strings.Repeat('0', 2 - |s|) + s
  }

  /** `formatTime`: whole minutes, a colon, and the remaining seconds as two digits. */
  function FormatTime(seconds: nat): (r: string)
    ensures |r| >= 4 && r[|r| - 3] == ':'
    ensures forall i :: 0 <= i < |r| && i != |r| - 3 ==> Strings.IsDigit(r[i])
  {
    var secs := seconds % 60;
    PaddedSeconds(secs);
    Strings.NatToString(seconds / 60) + ":" + PadTwo(Strings.NatToString(secs))
  }

  /** The two digits of a number below 60, zero-padded, read back as that number. */
  lemma PaddedSeconds(secs: nat)
    requires secs < 60
    ensures var p := PadTwo(Strings.NatToString(secs));
      |p| == 2 && Strings.AllDigits(p) && Strings.DigitsValue(p) == secs
  {
    var p := PadTwo(Strings.NatToString(secs));
    if secs < 10 {
      assert p == ['0', Strings.DigitChar(secs)];
      assert p[..1] == ['0'];
      assert p[..1][..0] == [];
    } else {
      assert Strings.NatToString(secs) == Strings.NatToString(secs / 10) + [Strings.DigitChar(secs % 10)];
      assert p == [Strings.DigitChar(secs / 10), Strings.DigitChar(secs % 10)];
      assert p[..1] == [Strings.DigitChar(secs / 10)] && p[..1][..0] == [];
      assert Strings.DigitsValue(p[..1]) == secs / 10;
      assert secs == secs / 10 * 10 + secs % 10;
    }
  }

  /** Reading the display back: the part before ':' counts minutes, the part after counts the seconds below 60. */
  lemma FormatTimeReadsBack(seconds: nat)
    ensures var parts := Strings.Split(FormatTime(seconds), ':');
      |parts| == 2 && Strings.AllDigits(parts[0]) && Strings.AllDigits(parts[1])
      && Strings.DigitsValue(parts[1]) < 60
      && Strings.DigitsValue(parts[0]) * 60 + Strings.DigitsValue(parts[1]) == seconds
  {
    var mins := Strings.NatToString(seconds / 60);
    var secs := PadTwo(Strings.NatToString(seconds % 60));
    PaddedSeconds(seconds % 60);
    Strings.DigitsValueOfNatToString(seconds / 60);
    assert ':' !in mins && ':' !in secs;
    assert Strings.Join([mins, secs], ':') == FormatTime(seconds);
    Strings.SplitJoin([mins, secs], ':');
  }

  /** Different times are displayed differently. */
  lemma FormatTimeInjective(a: nat, b: nat)
    requires FormatTime(a) == FormatTime(b)
    ensures a == b
  {
    FormatTimeReadsBack(a);
    FormatTimeReadsBack(b);
  }

  /** One tick of a cooldown interval: down by one, and never below zero. */
  function Tick(cooldown: nat): (r: nat)
    ensures cooldown > 0 ==> r == cooldown - 1
    ensures cooldown == 0 ==> r == 0
  {
    if cooldown <= 1 then 0 else cooldown - 1
  }

  /** `n` ticks. */
  function Ticks(cooldown: nat, n: nat): nat {
    if n == 0 then cooldown else Ticks(Tick(cooldown), n - 1)
  }

  /** After `n` ticks the cooldown is down by `n`, stopping at zero. */
  lemma {:induction false} TicksCountDown(cooldown: nat, n: nat)
    ensures Ticks(cooldown, n) == if n <= cooldown then cooldown - n else 0
  {
    if n > 0 {
      TicksCountDown(Tick(cooldown), n - 1);
    }
  }
}
