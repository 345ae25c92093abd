/**
 * The database's `LIKE` and `ILIKE` pattern matching: '%' matches any run
 * of characters, '_' any one character, and a backslash makes the next
 * character literal. Case folding for `ILIKE` is ASCII lower-casing.
 */
module SqlLike {
  import Strings

  /** Whether the text `t` matches the pattern `p`. */
  predicate Like(t: string, p: string)
    decreases |p|, |t|
  {
    if |p| == 0 then |t| == 0
    else if p[0] == '\\' && |p| >= 2 then |t| > 0 && t[0] == p[1] && Like(t[1..], p[2..])
    else if p[0] == '%' then Like(t, p[1..]) || (|t| > 0 && Like(t[1..], p))
    else if p[0] == '_' then |t| > 0 && Like(t[1..], p[1..])
    else |t| > 0 && t[0] == p[0] && Like(t[1..], p[1..])
  }

  /** `ILIKE`: matching after lower-casing both sides. */
  predicate ILike(t: string, p: string) {
    Like(Strings.Lower(t), Strings.Lower(p))
  }

  /** A leading '%' lets the rest of the pattern match any suffix of the text. */
  lemma {:induction false} PercentPrefix(t: string, q: string)
    ensures Like(t, "%" + q) <==> exists i :: 0 <= i <= |t| && Like(t[i..], q)
    decreases |t|
  {
    var p := "%" + q;
    assert p[1..] == q;
    if |t| > 0 {
      PercentPrefix(t[1..], q);
      if Like(t, p) {
        if Like(t, q) {
          assert t[0..] == t;
        } else {
          var i :| 0 <= i <= |t[1..]| && Like(t[1..][i..], q);
          assert t[1..][i..] == t[i + 1..];
        }
      }
      if exists i :: 0 <= i <= |t| && Like(t[i..], q) {
        var i :| 0 <= i <= |t| && Like(t[i..], q);
        if i > 0 {
          assert t[1..][i - 1..] == t[i..];
          assert Like(t[1..], p);
        } else {
          assert t[0..] == t;
          assert Like(t, q);
        }
        assert p[0] == '%';
        assert Like(t, p);
      }
    } else {
      assert forall i :: 0 <= i <= |t| ==> t[i..] == t;
    }
  }

  /** A pattern of a single '%' matches every text. */
  lemma PercentMatchesAll(t: string)
    ensures Like(t, "%")
  {
    PercentPrefix(t, "");
    assert Like(t[|t|..], "");
  }
}
