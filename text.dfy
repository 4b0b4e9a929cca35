// The string normalisation `s.lower().strip()` that submission grading applies to
// both the submitted and the stored answer (backend/app/routes/submission_routes.py:30,35).
// Characters are modelled over ASCII: `lower` maps 'A'..'Z' only, and
// `strip` removes the ASCII characters Python's `str.isspace` accepts.

module PyText {

  /** ASCII whitespace in Python's sense: '\t' '\n' '\v' '\f' '\r', the four
      separators 0x1C..0x1F, and ' '. */
  predicate IsSpace(c: char) {
    9 <= c as int <= 13 || 28 <= c as int <= 32
  }

  predicate AllSpace(s: string) {
    forall k :: 0 <= k < |s| ==> IsSpace(s[k])
  }

  function LowerChar(c: char): (d: char)
    ensures 'A' <= c <= 'Z' ==> 'a' <= d <= 'z' && d as int - c as int == 32
    ensures !('A' <= c <= 'Z') ==> d == c
  {
    if 'A' <= c <= 'Z' then (c as int + 32) as char else c
  }

  /** `str.lower()` */
  function Lower(s: string): (r: string)
    ensures |r| == |s|
    ensures forall i :: 0 <= i < |r| ==> !('A' <= r[i] <= 'Z')
    ensures forall i :: 0 <= i < |s| && !('A' <= s[i] <= 'Z') ==> r[i] == s[i]
  {
    seq(|s|, i requires 0 <= i < |s| => LowerChar(s[i]))
  }

  /** `str.lstrip()` */
  function StripLeft(s: string): (r: string)
    ensures |r| <= |s| && (r == [] || !IsSpace(r[0]))
    decreases |s|
  {
    if s != [] && IsSpace(s[0]) then StripLeft(s[1..]) else s
  }

  /** `str.rstrip()` */
  function StripRight(s: string): (r: string)
    ensures |r| <= |s| && (r == [] || !IsSpace(r[|r| - 1]))
    decreases |s|
  {
    if s != [] && IsSpace(s[|s| - 1]) then StripRight(s[..|s| - 1]) else s
  }

  /** `lstrip` removes exactly the leading whitespace: what remains is a suffix
      that is empty or starts with a non-space, and what went was all whitespace. */
  lemma {:induction false} StripLeftMeaning(s: string)
    ensures var r := StripLeft(s);
      |r| <= |s| && r == s[|s| - |r|..] && (r == [] || !IsSpace(r[0])) && AllSpace(s[..|s| - |r|])
    decreases |s|
  {
    if s != [] && IsSpace(s[0]) {
      var t := s[1..];
      StripLeftMeaning(t);
      var r := StripLeft(t);
      assert t[|t| - |r|..] == s[|s| - |r|..];
      assert s[..|s| - |r|] == [s[0]] + t[..|t| - |r|];
    }
  }

  /** `rstrip` removes exactly the trailing whitespace. */
  lemma {:induction false} StripRightMeaning(s: string)
    ensures var r := StripRight(s);
      |r| <= |s| && r == s[..|r|] && (r == [] || !IsSpace(r[|r| - 1])) && AllSpace(s[|r|..])
    decreases |s|
  {
    if s != [] && IsSpace(s[|s| - 1]) {
      var t := s[..|s| - 1];
      StripRightMeaning(t);
      var r := StripRight(t);
      assert t[..|r|] == s[..|r|];
      assert s[|r|..] == t[|r|..] + [s[|s| - 1]];
    }
  }

  /** `str.strip()` */
  function Strip(s: string): (r: string)
    ensures |r| <= |s|
    ensures r == [] || (!IsSpace(r[0]) && !IsSpace(r[|r| - 1]))
  {
    StripRightMeaning(StripLeft(s));
    StripRight(StripLeft(s))
  }

  /** `s.lower().strip()` */
  function Norm(s: string): (r: string)
    ensures |r| <= |s|
    ensures r == [] || (!IsSpace(r[0]) && !IsSpace(r[|r| - 1]))
  {
    Strip(Lower(s))
  }

  /** The normal form holds no upper-case letter: it is a slice of `Lower(s)`. */
  lemma NormHasNoCapitals(s: string)
    ensures forall k :: 0 <= k < |Norm(s)| ==> !('A' <= Norm(s)[k] <= 'Z')
  {
    var l := Lower(s);
    var m := StripLeft(l);
    StripLeftMeaning(l);
    StripRightMeaning(m);
    var r := StripRight(m);
    assert r == Norm(s);
    forall k | 0 <= k < |r|
      ensures !('A' <= r[k] <= 'Z')
    {
      assert r[k] == m[k] == l[|l| - |m| + k];
    }
  }

  lemma {:induction false} StripLeftSkipsSpace(w: string, x: string)
    requires AllSpace(w)
    ensures StripLeft(w + x) == StripLeft(x)
    decreases |w|
  {
    if w != [] {
      assert (w + x)[1..] == w[1..] + x;
      StripLeftSkipsSpace(w[1..], x);
    } else {
      assert w + x == x;
    }
  }

  lemma {:induction false} StripRightSkipsSpace(x: string, w: string)
    requires AllSpace(w)
    ensures StripRight(x + w) == StripRight(x)
    decreases |w|
  {
    if w != [] {
      assert (x + w)[..|x + w| - 1] == x + w[..|w| - 1];
      StripRightSkipsSpace(x, w[..|w| - 1]);
    } else {
      assert x + w == x;
    }
  }

  /** Trailing whitespace survives `lstrip` unless everything was whitespace. */
  lemma {:induction false} StripLeftKeepsTail(x: string, w: string)
    requires AllSpace(w)
    ensures StripLeft(x) != [] ==> StripLeft(x + w) == StripLeft(x) + w
    ensures StripLeft(x) == [] ==> StripLeft(x + w) == []
    decreases |x|
  {
    if x == [] {
      assert x + w == w;
      StripLeftSkipsSpace(w, []);
      assert w + [] == w;
    } else if IsSpace(x[0]) {
      assert (x + w)[1..] == x[1..] + w;
      StripLeftKeepsTail(x[1..], w);
    }
  }

  /** Whitespace around an answer does not change its normal form. */
  lemma PaddingIgnored(w1: string, s: string, w2: string)
    requires AllSpace(w1) && AllSpace(w2)
    ensures Norm(w1 + s + w2) == Norm(s)
  {
    var ls := Lower(s);
    assert Lower(w1 + s + w2) == w1 + ls + w2 by {
      assert Lower(w1) == w1 && Lower(w2) == w2;
    }
    assert w1 + ls + w2 == w1 + (ls + w2);
    StripLeftSkipsSpace(w1, ls + w2);
    StripLeftKeepsTail(ls, w2);
    if StripLeft(ls) != [] {
      StripRightSkipsSpace(StripLeft(ls), w2);
    }
  }

  lemma LowerIdempotent(s: string)
    ensures Lower(Lower(s)) == Lower(s)
  {
  }

  /** An answer and its lower-case spelling have the same normal form. */
  lemma CaseIgnored(s: string)
    ensures Norm(Lower(s)) == Norm(s)
  {
    LowerIdempotent(s);
  }
}
