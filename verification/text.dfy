/** String primitives the date normaliser relies on: Python's `str.strip()`,
    `str.startswith`, `str.split(sep, 1)` and `str.replace`. */
module Text {
  import opened Wrappers

  /** The characters for which Python's `str.isspace()` holds. */
  predicate IsSpace(c: char) {
    || ('\t' <= c <= '\r')
    || ('\U{1C}' <= c <= ' ')
    || c == '\U{85}' || c == '\U{A0}' || c == '\U{1680}'
    || ('\U{2000}' <= c <= '\U{200A}')
    || c == '\U{2028}' || c == '\U{2029}' || c == '\U{202F}' || c == '\U{205F}'
    || c == '\U{3000}'
  }

  predicate AllSpace(s: string) {
    forall i :: 0 <= i < |s| ==> IsSpace(s[i])
  }

  /** Neither end of `s` is whitespace. */
  predicate Trimmed(s: string) {
    s == [] || (!IsSpace(s[0]) && !IsSpace(s[|s| - 1]))
  }

  /** Drops the leading whitespace of `s`. */
  function TrimStart(s: string): (r: string)
    ensures |r| <= |s| && r == s[|s| - |r|..]
    ensures AllSpace(s[..|s| - |r|])
    ensures r == [] || !IsSpace(r[0])
  {
    if s != [] && IsSpace(s[0]) then
      var r := TrimStart(s[1..]);
      assert s[1..][..|s| - 1 - |r|] == s[1..|s| - |r|];
      assert forall i :: 1 <= i < |s| - |r| ==> s[i] == s[1..|s| - |r|][i - 1];
      r
    else s
  }

  /** Drops the trailing whitespace of `s`. */
  function TrimEnd(s: string): (r: string)
    ensures |r| <= |s| && r == s[..|r|]
    ensures AllSpace(s[|r|..])
    ensures r == [] || !IsSpace(r[|r| - 1])
  {
    if s != [] && IsSpace(s[|s| - 1]) then
      var r := TrimEnd(s[..|s| - 1]);
      assert s[..|s| - 1][|r|..] == s[|r|..|s| - 1];
      assert forall i :: |r| <= i < |s| - 1 ==> s[i] == s[|r|..|s| - 1][i - |r|];
      r
    else s
  }

  /** Python's `s.strip()`: `s` without its surrounding whitespace. */
  function Strip(s: string): (r: string)
    ensures Trimmed(r)
    ensures |r| <= |s|
  {
    TrimEnd(TrimStart(s))
  }

  /** `TrimStart` stops at the first non-space character. */
  lemma {:induction false} TrimStartAt(s: string, i: nat)
    requires i <= |s| && AllSpace(s[..i])
    requires i == |s| || !IsSpace(s[i])
    ensures TrimStart(s) == s[i..]
  {
    if i > 0 {
      assert IsSpace(s[0]) by { assert s[0] == s[..i][0]; }
      var u := s[1..][..i - 1];
      assert AllSpace(u) by {
        forall p | 0 <= p < i - 1 ensures IsSpace(u[p]) {
          assert u[p] == s[..i][p + 1];
        }
      }
      TrimStartAt(s[1..], i - 1);
      assert s[1..][i - 1..] == s[i..];
    }
  }

  /** `TrimEnd` stops at the last non-space character. */
  lemma {:induction false} TrimEndAt(s: string, j: nat)
    requires j <= |s| && AllSpace(s[j..])
    requires j == 0 || !IsSpace(s[j - 1])
    ensures TrimEnd(s) == s[..j]
  {
    if j < |s| {
      assert IsSpace(s[|s| - 1]) by { assert s[|s| - 1] == s[j..][|s| - 1 - j]; }
      var t := s[..|s| - 1];
      assert AllSpace(t[j..]) by {
        forall p | 0 <= p < |t| - j ensures IsSpace(t[j..][p]) {
          assert t[j..][p] == s[j..][p];
        }
      }
      TrimEndAt(t, j);
      assert t[..j] == s[..j];
    }
  }

  /** Any cut of `s` into whitespace, a trimmed middle and whitespace is the
      one `Strip` makes: the result is exactly the text between the outer
      whitespace runs. */
  lemma {:induction false} StripUnique(s: string, i: nat, j: nat)
    requires i <= j <= |s|
    requires AllSpace(s[..i]) && AllSpace(s[j..]) && Trimmed(s[i..j])
    ensures Strip(s) == s[i..j]
  {
    if i < j {
      StripNonEmpty(s, i, j);
    } else {
      assert AllSpace(s) by {
        forall p | 0 <= p < |s| ensures IsSpace(s[p]) {
          if p < i { assert s[p] == s[..i][p]; } else { assert s[p] == s[j..][p - j]; }
        }
      }
      assert s[..|s|] == s;
      TrimStartAt(s, |s|);
      assert s[|s|..] == [];
    }
  }

  lemma {:induction false} StripNonEmpty(s: string, i: nat, j: nat)
    requires i < j <= |s|
    requires AllSpace(s[..i]) && AllSpace(s[j..]) && Trimmed(s[i..j])
    ensures Strip(s) == s[i..j]
  {
    assert s[i] == s[i..j][0];
    TrimStartAt(s, i);
    TrimEndOfSuffix(s, s[i..], i, j);
  }

  lemma {:induction false} TrimEndOfSuffix(s: string, t: string, i: nat, j: nat)
    requires i < j <= |s|
    requires AllSpace(s[j..]) && Trimmed(s[i..j])
    requires t == s[i..]
    ensures TrimEnd(t) == s[i..j]
  {
    assert t[j - i..] == s[j..];
    assert t[j - i - 1] == s[i..j][j - i - 1];
    TrimEndAt(t, j - i);
    assert t[..j - i] == s[i..j];
  }

  /** Stripping is idempotent. */
  lemma {:induction false} StripIdempotent(s: string)
    ensures Strip(Strip(s)) == Strip(s)
  {
    var r := Strip(s);
    assert r[..0] == [] && r[|r|..] == [] && r[0..|r|] == r;
    StripUnique(r, 0, |r|);
  }

  /** Python's `s.startswith(prefix)`. */
  predicate StartsWith(s: string, prefix: string) {
    |prefix| <= |s| && s[..|prefix|] == prefix
  }

  /** Python's `s.split(sep, 1)` for a one-character separator, with the
      separator chosen from `seps`: the text before the first separator and
      the text after it, or None when no separator occurs. */
  function SplitFirst(s: string, seps: set<char>): (r: Option<(string, string)>)
    ensures r.None? <==> forall i :: 0 <= i < |s| ==> s[i] !in seps
    ensures r.Some? ==> |r.value.0| < |s| && s[|r.value.0|] in seps
    ensures r.Some? ==> s == r.value.0 + [s[|r.value.0|]] + r.value.1
    ensures r.Some? ==> forall i :: 0 <= i < |r.value.0| ==> r.value.0[i] !in seps
  {
    if s == [] then None
    else if s[0] in seps then Some(([], s[1..]))
    else match SplitFirst(s[1..], seps)
      case None => None
      case Some(p) => Some(([s[0]] + p.0, p.1))
  }

  /** Splitting `a + [c] + b` at the first separator, when `a` holds none,
      gives back `a` and `b`. */
  lemma {:induction false} SplitFirstAt(a: string, c: char, b: string, seps: set<char>)
    requires c in seps
    requires forall i :: 0 <= i < |a| ==> a[i] !in seps
    ensures SplitFirst(a + [c] + b, seps) == Some((a, b))
  {
    var s := a + [c] + b;
    if a == [] {
      assert s[0] == c && s[1..] == b;
    } else {
      assert s[0] == a[0] && a[0] !in seps;
      assert s[1..] == a[1..] + [c] + b;
      SplitFirstAt(a[1..], c, b, seps);
      assert [a[0]] + a[1..] == a;
    }
  }

  /** Python's `s.replace(target, replacement)` for a one-character `target`: every
      occurrence is replaced. */
  function ReplaceAll(s: string, target: char, replacement: string): (r: string)
    ensures target !in replacement ==> target !in r
    ensures target !in s ==> r == s
  {
    if s == [] then []
    else (if s[0] == target then replacement else [s[0]]) + ReplaceAll(s[1..], target, replacement)
  }

  /** Replacement works piecewise on a concatenation. */
  lemma {:induction false} ReplaceAllAppend(a: string, b: string, target: char, replacement: string)
    ensures ReplaceAll(a + b, target, replacement) == ReplaceAll(a, target, replacement) + ReplaceAll(b, target, replacement)
  {
    if a == [] {
      assert a + b == b;
    } else {
      assert (a + b)[0] == a[0];
      assert (a + b)[1..] == a[1..] + b;
      ReplaceAllAppend(a[1..], b, target, replacement);
    }
  }
}
