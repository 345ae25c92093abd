/**
 * The sign-in code page: six one-digit input slots, typing and pasting
 * into them, the automatic submission once the sixth digit arrives, and
 * the verify and resend requests.
 */
module VerifyPage {
  import opened Wrappers
  import Seqs
  import Strings

  const CodeLength: nat := 6

  datatype Page = Page(
    email: string,
    slots: seq<string>,
    loading: bool,
    error: Option<string>,
    resendSuccess: bool)

  /** An outcome of a request: the reply, or the message of the error it raised. */
  datatype Outcome<T> = Replied(value: T) | Raised(message: string)

  /** A transition, the code it sends for verification, if any, and the page it navigates to, if any. */
  datatype Step = Step(page: Page, sent: Option<string>, goTo: Option<string>)

  /** Six empty slots. */
  function EmptySlots(): (r: seq<string>)
    ensures |r| == CodeLength && forall i :: 0 <= i < |r| ==> r[i] == ""
  {
    ["", "", "", "", "", ""]
  }

  /** `searchParams.get('email') || ''`; the page shows only the invalid-request view when this is empty. */
  function Open(emailParam: Option<string>): (r: Page)
    ensures r.email == "" <==> emailParam.None? || emailParam.value == ""
    ensures emailParam.Some? ==> r.email == emailParam.value
    ensures r.slots == EmptySlots() && !r.loading && r.error.None? && !r.resendSuccess
  {
    Page(if emailParam.Some? then emailParam.value else "", EmptySlots(), false, None, false)
  }

  /** `value.replace(/\D/g, '')`: the ASCII digits of the input, in order. */
  function DigitsOf(value: string): (r: string)
    ensures Strings.AllDigits(r) && |r| <= |value|
    ensures forall c :: c in r <==> c in value && Strings.IsDigit(c)
  {
    Seqs.Filter(Strings.IsDigit, value)
  }

  /** `.slice(-1)` of the digits: the last digit typed, or nothing. */
  function SlotValue(value: string): (r: string)
    ensures |r| <= 1 && Strings.AllDigits(r)
    ensures r == "" <==> forall c :: c in value ==> !Strings.IsDigit(c)
    ensures r != "" ==> r[0] in value
  {
    var digits := DigitsOf(value);
    if |digits| == 0 then "" else
      assert digits[|digits| - 1] in digits;
      [digits[|digits| - 1]]
  }

  /** Every slot holds at most one digit. */
  predicate SlotsValid(slots: seq<string>) {
    |slots| == CodeLength && forall i :: 0 <= i < |slots| ==> |slots[i]| <= 1 && Strings.AllDigits(slots[i])
  }

  predicate Filled(slot: string) { slot != "" }

  /** The submit button's condition besides loading: no slot is empty. */
  predicate AllFilled(slots: seq<string>) {
    forall i :: 0 <= i < |slots| ==> Filled(slots[i])
  }

  /** `code.join('')`. */
  function Code(slots: seq<string>): string {
    Strings.Concat(slots)
  }

  /** The joined code of one-digit slots is all digits, one per filled slot. */
  lemma {:induction false} CodeLengthCounts(slots: seq<string>)
    requires forall i :: 0 <= i < |slots| ==> |slots[i]| <= 1 && Strings.AllDigits(slots[i])
    ensures |Code(slots)| == Seqs.Count(Filled, slots) && Strings.AllDigits(Code(slots))
  {
    if |slots| > 0 {
      CodeLengthCounts(slots[1..]);
    }
  }

  /** Over six valid slots, the code is six characters long exactly when every slot is filled. */
  lemma CodeCompleteIffFilled(slots: seq<string>)
    requires SlotsValid(slots)
    ensures |Code(slots)| == CodeLength <==> AllFilled(slots)
    ensures Strings.AllDigits(Code(slots))
  {
    CodeLengthCounts(slots);
    if AllFilled(slots) {
      assert forall i :: 0 <= i < |slots| ==> Filled(slots[i]);
    }
  }

  /**
   * `handleInputChange`: slot `index` takes the last digit of the input and
   * nothing else changes; when that digit lands in the last slot and every
   * slot is filled, the joined code is submitted.
   */
  function InputChange(p: Page, index: nat, value: string): (r: (Page, Option<string>))
    requires index < |p.slots|
    ensures |r.0.slots| == |p.slots| && r.0.slots[index] == SlotValue(value)
    ensures forall i :: 0 <= i < |p.slots| && i != index ==> r.0.slots[i] == p.slots[i]
    ensures r.0.(slots := p.slots) == p
    ensures r.1.Some? <==> SlotValue(value) != "" && index == CodeLength - 1 && AllFilled(r.0.slots)
    ensures r.1.Some? ==> r.1.value == Code(r.0.slots)
  {
    var digit := SlotValue(value);
    var slots := p.slots[index := digit];
    (p.(slots := slots), if digit != "" && index == CodeLength - 1 && AllFilled(slots) then Some(Code(slots)) else None)
  }

  /**
   * `handlePaste`: the pasted text's digits, cut to six; only six of them
   * fill the slots and are submitted, anything shorter is ignored.
   */
  function Paste(p: Page, text: string): (r: (Page, Option<string>))
    ensures var digits := DigitsOf(text);
      (|digits| >= CodeLength ==> r.0 == p.(slots := Seqs.Map(Single, digits[..CodeLength])) && r.1 == Some(digits[..CodeLength]))
      && (|digits| < CodeLength ==> r == (p, None))
  {
    var pasted := DigitsOf(text);
    var cut := if |pasted| >= CodeLength then pasted[..CodeLength] else pasted;
    if |cut| == CodeLength then (p.(slots := Seqs.Map(Single, cut)), Some(cut)) else (p, None)
  }

  /** `split('')` of one character. */
  function Single(c: char): string { [c] }

  /** Joining the pasted slots gives back the pasted code. */
  lemma {:induction false} PastedCodeJoins(code: string)
    ensures Code(Seqs.Map(Single, code)) == code
  {
    if |code| > 0 {
      PastedCodeJoins(code[1..]);
      assert Seqs.Map(Single, code)[1..] == Seqs.Map(Single, code[1..]);
    }
  }

  /**
   * `handleSubmit` with the outcome of the verification and, inside it, of
   * the user lookup (`None` when that lookup fails). The code is the given
   * one, or the joined slots when none is given; it is sent only when six
   * characters long. A success navigates administrators to the dashboard
   * and everyone else to the quiz; a failure shows the error and empties
   * every slot.
   */
  function Submit(p: Page, given: Option<string>, reply: Outcome<Option<bool>>): (r: Step)
    ensures var code := if given.Some? && given.value != "" then given.value else Code(p.slots);
      (|code| != CodeLength ==> r == Step(p, None, None))
      && (|code| == CodeLength ==> r.sent == Some(code) && !r.page.loading)
      && (|code| == CodeLength && reply.Replied? ==>
            r.page == p.(error := None, loading := false) && r.goTo == Some(if reply.value == Some(true) then "/admin/dashboard" else "/quiz"))
      && (|code| == CodeLength && reply.Raised? ==>
            r.page == p.(error := Some(reply.message), slots := EmptySlots(), loading := false) && r.goTo.None?)
  {
    var code := if given.Some? && given.value != "" then given.value else Code(p.slots);
    if |code| != CodeLength then Step(p, None, None)
    else
      var started := p.(loading := true, error := None);
      match reply
      case Replied(isAdmin) =>
        Step(started.(loading := false), Some(code), Some(if isAdmin == Some(true) then "/admin/dashboard" else "/quiz"))
      case Raised(m) =>
        Step(started.(error := Some(m), slots := EmptySlots(), loading := false), Some(code), None)
  }

  /** `handleResend`: a success shows the notice and empties every slot, a failure shows its message. */
  function Resend(p: Page, reply: Outcome<()>): (r: Page)
    ensures reply.Replied? ==> r == p.(error := None, resendSuccess := true, slots := EmptySlots())
    ensures reply.Raised? ==> r == p.(error := Some(reply.message), resendSuccess := false)
  {
    var started := p.(error := None, resendSuccess := false);
    match reply
    case Replied(_) => started.(resendSuccess := true, slots := EmptySlots())
    case Raised(m) => started.(error := Some(m))
  }

  /** The five-second timer hiding the resend notice. */
  function HideNotice(p: Page): (r: Page)
    ensures !r.resendSuccess && r.(resendSuccess := p.resendSuccess) == p
  {
    p.(resendSuccess := false)
  }

  /** Once the notice of a successful resend is hidden, the slots stay empty and no error shows. */
  lemma NoticeHiddenAfterResend(p: Page)
    ensures HideNotice(Resend(p, Replied(()))) == p.(error := None, resendSuccess := false, slots := EmptySlots())
  {
  }

  /** Every event keeps six slots of at most one digit each. */
  lemma EventsKeepSlotsValid(p: Page, index: nat, value: string, text: string, given: Option<string>,
                             verified: Outcome<Option<bool>>, resent: Outcome<()>)
    requires SlotsValid(p.slots) && index < |p.slots|
    ensures SlotsValid(InputChange(p, index, value).0.slots)
    ensures SlotsValid(Paste(p, text).0.slots)
    ensures SlotsValid(Submit(p, given, verified).page.slots)
    ensures SlotsValid(Resend(p, resent).slots)
    ensures SlotsValid(HideNotice(p).slots)
  {
    PasteKeepsSlotsValid(p, text);
  }

  lemma PasteKeepsSlotsValid(p: Page, text: string)
    ensures SlotsValid(p.slots) ==> SlotsValid(Paste(p, text).0.slots)
  {
    var digits := DigitsOf(text);
    if |digits| >= CodeLength {
      var cut := digits[..CodeLength];
      assert Strings.AllDigits(cut);
      var slots := Seqs.Map(Single, cut);
      assert forall i :: 0 <= i < |slots| ==> slots[i] == [cut[i]] && Strings.IsDigit(cut[i]);
    }
  }

  /**
   * Typing the digits of a code one by one, first slot to last, submits
   * exactly that code when the last digit goes in.
   */
  lemma TypingLastDigitSubmits(p: Page, value: string)
    requires SlotsValid(p.slots)
    requires forall i :: 0 <= i < CodeLength - 1 ==> Filled(p.slots[i])
    requires SlotValue(value) != ""
    ensures var r := InputChange(p, CodeLength - 1, value);
      r.1.Some? && |r.1.value| == CodeLength && Strings.AllDigits(r.1.value)
      && r.1.value == Code(p.slots[..CodeLength - 1]) + SlotValue(value)
  {
    var r := InputChange(p, CodeLength - 1, value);
    var slots := r.0.slots;
    assert AllFilled(slots);
    CodeCompleteIffFilled(slots);
    assert slots == p.slots[..CodeLength - 1] + [SlotValue(value)];
    ConcatSnoc(p.slots[..CodeLength - 1], SlotValue(value));
  }

  lemma {:induction false} ConcatSnoc(parts: seq<string>, last: string)
    ensures Strings.Concat(parts + [last]) == Strings.Concat(parts) + last
  {
    if |parts| > 0 {
      assert (parts + [last])[1..] == parts[1..] + [last];
      ConcatSnoc(parts[1..], last);
    }
  }
}
