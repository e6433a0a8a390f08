/** String operations used by the extraction rules and the filter, over ASCII:
    `toLowerCase`, `trim`, `includes` and `split("-")[0]`. */
module Text {

  /** ASCII whitespace as `trim` removes it: space, tab, line feed, vertical tab, form feed, carriage return. */
  predicate IsSpace(c: char)
  {
    c == ' ' || '\t' <= c <= '\r'
  }

  predicate IsUpper(c: char)
  {
    'A' <= c <= 'Z'
  }

  function LowerChar(c: char): char
  {
    if IsUpper(c) then (c as int + 32) as char else c
  }

  /** `s.toLowerCase()` restricted to ASCII letters. */
  function ToLower(s: string): (r: string)
    ensures |r| == |s|
    ensures forall i :: 0 <= i < |r| ==> !IsUpper(r[i])
    ensures forall i :: 0 <= i < |r| && !IsUpper(s[i]) ==> r[i] == s[i]
    ensures forall i :: 0 <= i < |r| && IsUpper(s[i]) ==> r[i] as int == s[i] as int + 32
  {
    seq(|s|, i requires 0 <= i < |s| => LowerChar(s[i]))
  }

  /** Lower-casing twice is lower-casing once. */
  lemma ToLowerIdempotent(s: string)
    ensures ToLower(ToLower(s)) == ToLower(s)
  {
  }

  /** `n` occurs in `h` starting at offset `i`. */
  predicate OccursAt(h: string, n: string, i: int)
  {
    0 <= i && i + |n| <= |h| && h[i..i + |n|] == n
  }

  /** `h.includes(n)`, searching from the left. */
  function Includes(h: string, n: string): (b: bool)
    ensures b <==> exists i :: OccursAt(h, n, i)
    decreases |h|
  {
    if |n| > |h| then
      assert forall i :: !OccursAt(h, n, i);
      false
    else if h[..|n|] == n then
      assert OccursAt(h, n, 0);
      true
    else
      var b := Includes(h[1..], n);
      assert !OccursAt(h, n, 0);
      assert b ==> exists i :: OccursAt(h, n, i) by {
        if b {
          var i :| OccursAt(h[1..], n, i);
          OccursAtShift(h, n, i);
        }
      }
      assert (exists i :: OccursAt(h, n, i)) ==> b by {
        if exists i :: OccursAt(h, n, i) {
          var i :| OccursAt(h, n, i);
          assert i != 0;
          OccursAtShift(h, n, i - 1);
        }
      }
      b
  }

  /** An occurrence in `h` after its first character is an occurrence in `h[1..]`, one place earlier. */
  lemma OccursAtShift(h: string, n: string, i: nat)
    requires |h| > 0
    ensures OccursAt(h[1..], n, i) <==> OccursAt(h, n, i + 1)
  {
    if i + |n| <= |h| - 1 {
      assert h[1..][i..i + |n|] == h[i + 1..i + 1 + |n|];
    }
  }

  /** Every string includes the empty string: an empty search term matches everything. */
  lemma IncludesEmpty(h: string)
    ensures Includes(h, "")
  {
    assert OccursAt(h, "", 0);
  }

  predicate IsTrimmed(s: string)
  {
    s == "" || (!IsSpace(s[0]) && !IsSpace(s[|s| - 1]))
  }

  /** `s.trimStart()`: the suffix of `s` left after its leading whitespace. */
  function TrimStart(s: string): (r: string)
    ensures |r| <= |s| && r == s[|s| - |r|..]
    ensures r == "" || !IsSpace(r[0])
  {
    if |s| > 0 && IsSpace(s[0]) then TrimStart(s[1..]) else s
  }

  /** A text that starts with a non-space character has nothing to trim at its start. */
  lemma TrimStartOfNonSpace(s: string)
    requires s != "" && !IsSpace(s[0])
    ensures TrimStart(s) == s
  {
  }

  /** `s.trimEnd()`: the prefix of `s` left before its trailing whitespace. */
  function TrimEnd(s: string): (r: string)
    ensures |r| <= |s| && r == s[..|r|]
    ensures r == "" || !IsSpace(r[|r| - 1])
  {
    if |s| > 0 && IsSpace(s[|s| - 1]) then TrimEnd(s[..|s| - 1]) else s
  }

  /** `s.trim()`: `s` without its leading and trailing whitespace. */
  function Trim(s: string): (r: string)
    ensures IsTrimmed(r)
  {
    TrimEnd(TrimStart(s))
  }

  predicate AllSpace(s: string)
  {
    forall i :: 0 <= i < |s| ==> IsSpace(s[i])
  }

  lemma AllSpaceConcat(a: string, b: string)
    requires AllSpace(a) && AllSpace(b)
    ensures AllSpace(a + b)
  {
  }

  /** Only whitespace precedes what `trimStart` keeps. */
  lemma {:induction false} TrimStartDropsSpace(s: string)
    ensures AllSpace(s[..|s| - |TrimStart(s)|])
  {
    if |s| > 0 && IsSpace(s[0]) {
      var m := |s| - 1 - |TrimStart(s[1..])|;
      TrimStartDropsSpace(s[1..]);
      assert s[..m + 1] == [s[0]] + s[1..][..m];
      AllSpaceConcat([s[0]], s[1..][..m]);
    }
  }

  /** Only whitespace follows what `trimEnd` keeps. */
  lemma {:induction false} TrimEndDropsSpace(s: string)
    ensures AllSpace(s[|TrimEnd(s)|..])
  {
    if |s| > 0 && IsSpace(s[|s| - 1]) {
      var p := s[..|s| - 1];
      var n := |TrimEnd(p)|;
      TrimEndDropsSpace(p);
      assert s[n..] == p[n..] + [s[|s| - 1]];
      AllSpaceConcat(p[n..], [s[|s| - 1]]);
    }
  }

  /** The trimmed text is the infix of `s` between its leading and its trailing whitespace. */
  lemma TrimInfix(s: string)
    ensures exists k :: OccursAt(s, Trim(s), k) && AllSpace(s[..k]) && AllSpace(s[k + |Trim(s)|..])
  {
    var t := TrimStart(s);
    var r := TrimEnd(t);
    var k := |s| - |t|;
    TrimStartDropsSpace(s);
    TrimEndDropsSpace(t);
    assert t[|r|..] == s[k + |r|..];
    assert s[k..k + |r|] == r;
    assert OccursAt(s, r, k);
  }

  /** The trimmed text is empty exactly when `s` is all whitespace. */
  lemma TrimEmptyIffAllSpace(s: string)
    ensures Trim(s) == "" <==> AllSpace(s)
  {
    var t := TrimStart(s);
    var k := |s| - |t|;
    if Trim(s) == "" {
      TrimStartDropsSpace(s);
      TrimEndDropsSpace(t);
      assert t[0..] == t;
      assert s == s[..k] + t;
      AllSpaceConcat(s[..k], t);
    }
  }

  /** Trimming a string that is already trimmed leaves it unchanged. */
  lemma TrimOfTrimmed(s: string)
    requires IsTrimmed(s)
    ensures Trim(s) == s
  {
    assert TrimStart(s) == s;
  }

  /** Trimming twice is trimming once. */
  lemma TrimIdempotent(s: string)
    ensures Trim(Trim(s)) == Trim(s)
  {
    TrimOfTrimmed(Trim(s));
  }

  /** `s.split("-")[0]`: the text before the first `-`, or all of `s` when it has none. */
  function BeforeFirstDash(s: string): (r: string)
    ensures |r| <= |s| && r == s[..|r|]
    ensures forall i :: 0 <= i < |r| ==> r[i] != '-'
    ensures |r| < |s| ==> s[|r|] == '-'
  {
    if |s| == 0 || s[0] == '-' then "" else [s[0]] + BeforeFirstDash(s[1..])
  }

  /** A text without `-` followed by nothing or by a `-` part splits back into that text. */
  lemma BeforeFirstDashStops(d: string, rest: string)
    requires forall i :: 0 <= i < |d| ==> d[i] != '-'
    requires rest == "" || rest[0] == '-'
    ensures BeforeFirstDash(d + rest) == d
  {
    assert (d + rest)[..|d|] == d;
  }
}
