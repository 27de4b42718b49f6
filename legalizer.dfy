/**
 * The name legalizer of the ONNX frontend: `replaceAll` and `legalize_name`
 * turn an ONNX tensor name into an identifier usable inside MLIR and C++.
 */
module Legalizer {
  import opened Wrappers

  /** `isdigit` restricted to the ASCII digits (the "C" locale). */
  predicate IsDigit(c: char) {
    '0' <= c <= '9'
  }

  /** A legal name: no '/', '-' or ':' anywhere and no leading digit. */
  predicate IsLegalName(s: string) {
    '/' !in s && '-' !in s && ':' !in s && (s == [] || !IsDigit(s[0]))
  }

  /** `pat` occurs in `s` starting at position `i`. */
  predicate MatchAt(s: string, pat: string, i: nat) {
    i + |pat| <= |s| && s[i..i + |pat|] == pat
  }

  /** `std::string::find(pat, pos)`: the first occurrence at or after `pos`, if any. */
  function Find(s: string, pat: string, pos: nat): (r: Option<nat>)
    decreases |s| - pos
    ensures r.Some? ==> pos <= r.value && MatchAt(s, pat, r.value)
    ensures r.Some? ==> forall i :: pos <= i < r.value ==> !MatchAt(s, pat, i)
    ensures r.None? ==> forall i :: pos <= i ==> !MatchAt(s, pat, i)
  {
    if pos + |pat| > |s| then None
    else if MatchAt(s, pat, pos) then Some(pos)
    else Find(s, pat, pos + 1)
  }

  /** What `std::replace(first, last, c, d)` leaves: every `c` replaced by `d`. */
  function SubstChar(s: string, c: char, d: char): (r: string)
  {
    seq(|s|, i requires 0 <= i < |s| => if s[i] == c then d else s[i])
  }

  /**
   * What `replaceAll` leaves: occurrences of `from` replaced by `to` from left to
   * right, without overlap and without rescanning the inserted text; an empty
   * `from` changes nothing.
   */
  function SubstAll(s: string, from: string, to: string): string
    decreases |s|
  {
    if from == [] || !(|from| <= |s|) then s
    else if MatchAt(s, from, 0) then to + SubstAll(s[|from|..], from, to)
    else [s[0]] + SubstAll(s[1..], from, to)
  }

  /** What `legalize_name` returns. */
  function Legalize(name: string): string
  {
    var slashes := SubstChar(name, '/', '_');
    var dashes := SubstChar(slashes, '-', '_');
    var colons := SubstAll(dashes, ":", "_colon_");
    if |colons| > 0 && IsDigit(colons[0]) then "n" + colons else colons
  }

  // ---------------------------------------------------------------------------
  // The imperative code

  /** `std::replace(name.begin(), name.end(), c, d)` on a copy of the string. */
  method ReplaceChar(s: string, c: char, d: char) returns (r: string)
    ensures r == SubstChar(s, c, d)
  {
    r := s;
    for i := 0 to |r|
      invariant |r| == |s|
      invariant forall k :: 0 <= k < i ==> r[k] == (if s[k] == c then d else s[k])
      invariant forall k :: i <= k < |r| ==> r[k] == s[k]
    {
      if r[i] == c {
        r := r[i := d];
      }
    }
  }

  /** `replaceAll(str, from, to)`: `s` is the string before, `str` the string after. */
  method ReplaceAll(s: string, from: string, to: string) returns (str: string)
    ensures from == [] ==> str == s
    ensures str == SubstAll(s, from, to)
  {
    str := s;
    if from == [] {
      return;
    }
    var startPos: nat := 0;
    var found := Find(str, from, startPos);
    while found.Some?
      invariant startPos <= |str|
      invariant found == Find(str, from, startPos)
      invariant str[..startPos] + SubstAll(str[startPos..], from, to) == SubstAll(s, from, to)
      decreases |str| - startPos
    {
      var p := found.value;
      ReplaceStep(str, from, to, startPos, p);
      str := str[..p] + to + str[p + |from|..];
      startPos := p + |to|;
      found := Find(str, from, startPos);
    }
    ReplaceDone(str, from, to, startPos);
  }

  /** `legalize_name(name)`. */
  method LegalizeName(raw: string) returns (name: string)
    ensures name == Legalize(raw)
  {
    name := ReplaceChar(raw, '/', '_');
    name := ReplaceChar(name, '-', '_');
    name := ReplaceAll(name, ":", "_colon_");
    if |name| > 0 && IsDigit(name[0]) {
      name := "n" + name;
    }
  }

  // ---------------------------------------------------------------------------
  // Lemmas about the replacement

  lemma MatchShift(s: string, pat: string, k: nat, i: nat)
    requires k <= |s|
    ensures MatchAt(s[k..], pat, i) <==> MatchAt(s, pat, k + i)
  {
    if k + i + |pat| <= |s| {
      assert s[k..][i..i + |pat|] == s[k + i..k + i + |pat|];
    }
  }

  /** Positions without a match are copied through unchanged. */
  lemma {:induction false} SkipPrefix(s: string, from: string, to: string, p: nat)
    requires from != [] && p <= |s|
    requires forall i :: 0 <= i < p ==> !MatchAt(s, from, i)
    ensures SubstAll(s, from, to) == s[..p] + SubstAll(s[p..], from, to)
    decreases p
  {
    if p == 0 {
      assert s[..0] == [] && s[0..] == s;
    } else if |s| < |from| {
      assert s[..p] + s[p..] == s;
    } else {
      assert !MatchAt(s, from, 0);
      var t := s[1..];
      forall i | 0 <= i < p - 1
        ensures !MatchAt(t, from, i)
      {
        MatchShift(s, from, 1, i);
      }
      SkipPrefix(t, from, to, p - 1);
      assert t[p - 1..] == s[p..];
      assert [s[0]] + t[..p - 1] == s[..p];
    }
  }

  lemma SkipUnmatched(s: string, from: string, to: string, a: nat, p: nat)
    requires from != [] && a <= p <= |s|
    requires forall i :: a <= i < p ==> !MatchAt(s, from, i)
    ensures SubstAll(s[a..], from, to) == s[a..p] + SubstAll(s[p..], from, to)
  {
    var t := s[a..];
    forall i | 0 <= i < p - a
      ensures !MatchAt(t, from, i)
    {
      MatchShift(s, from, a, i);
    }
    SkipPrefix(t, from, to, p - a);
    assert t[..p - a] == s[a..p];
    assert t[p - a..] == s[p..];
  }

  /** Once no match is left at or after `startPos`, the remainder is already substituted. */
  lemma ReplaceDone(str: string, from: string, to: string, startPos: nat)
    requires from != [] && startPos <= |str| && Find(str, from, startPos).None?
    ensures str[..startPos] + SubstAll(str[startPos..], from, to) == str
  {
    SkipUnmatched(str, from, to, startPos, |str|);
    assert str[startPos..|str|] == str[startPos..];
    assert str[|str|..] == [];
    assert str[..startPos] + str[startPos..] == str;
  }

  /** One round of the `replaceAll` loop keeps what is left to do unchanged. */
  lemma ReplaceStep(str: string, from: string, to: string, startPos: nat, p: nat)
    requires from != [] && startPos <= p && MatchAt(str, from, p)
    requires forall i :: startPos <= i < p ==> !MatchAt(str, from, i)
    ensures var after := str[..p] + to + str[p + |from|..];
      && p + |to| <= |after|
      && |after| - (p + |to|) < |str| - startPos
      && after[..p + |to|] + SubstAll(after[p + |to|..], from, to)
         == str[..startPos] + SubstAll(str[startPos..], from, to)
  {
    var after := str[..p] + to + str[p + |from|..];
    SkipUnmatched(str, from, to, startPos, p);
    MatchedStep(str, from, to, p);
    assert after[..p + |to|] == str[..p] + to;
    assert after[p + |to|..] == str[p + |from|..];
    assert str[..startPos] + str[startPos..p] == str[..p];
  }

  lemma MatchedStep(s: string, from: string, to: string, p: nat)
    requires from != [] && MatchAt(s, from, p)
    ensures SubstAll(s[p..], from, to) == to + SubstAll(s[p + |from|..], from, to)
  {
    MatchShift(s, from, p, 0);
    assert s[p..][|from|..] == s[p + |from|..];
  }

  /** Every character of the result comes from the input or from the replacement. */
  lemma {:induction false} SubstAllChars(s: string, from: string, to: string, c: char)
    requires c in SubstAll(s, from, to)
    ensures c in s || c in to
    decreases |s|
  {
    if from == [] || !(|from| <= |s|) {
    } else if MatchAt(s, from, 0) {
      var rest := SubstAll(s[|from|..], from, to);
      if c !in to {
        assert c in rest;
        SubstAllChars(s[|from|..], from, to, c);
      }
    } else {
      var rest := SubstAll(s[1..], from, to);
      if c != s[0] {
        assert c in rest;
        SubstAllChars(s[1..], from, to, c);
      }
    }
  }

  /** Replacing a one-character pattern by text without that character removes it. */
  lemma {:induction false} SubstAllRemoves(s: string, from: string, to: string)
    requires |from| == 1 && from[0] !in to
    ensures from[0] !in SubstAll(s, from, to)
    decreases |s|
  {
    if |s| == 0 {
    } else if MatchAt(s, from, 0) {
      SubstAllRemoves(s[1..], from, to);
    } else {
      assert s[0..1] != from;
      assert s[0] != from[0];
      SubstAllRemoves(s[1..], from, to);
    }
  }

  /** `replaceAll` is the identity on a string in which `from` does not occur. */
  lemma SubstAllNoMatch(s: string, from: string, to: string)
    requires forall i :: 0 <= i < |s| ==> !MatchAt(s, from, i)
    ensures SubstAll(s, from, to) == s
  {
    if from != [] {
      SkipPrefix(s, from, to, |s|);
      assert s[..|s|] == s;
      assert s[|s|..] == [];
    }
  }

  lemma SubstCharRemoves(s: string, c: char, d: char, e: char)
    requires e in SubstChar(s, c, d)
    ensures e != c || c == d
    ensures e in s || e == d
  {
    var r := SubstChar(s, c, d);
    var i :| 0 <= i < |r| && r[i] == e;
  }

  // ---------------------------------------------------------------------------
  // Lemmas about legalize_name

  /** The empty name stays empty. */
  lemma LegalizeEmpty()
    ensures Legalize("") == ""
  {
    assert SubstChar("", '/', '_') == "";
    assert SubstChar("", '-', '_') == "";
  }

  /** `legalize_name` always produces a legal name. */
  lemma LegalizeIsLegal(raw: string)
    ensures IsLegalName(Legalize(raw))
  {
    var slashes := SubstChar(raw, '/', '_');
    var dashes := SubstChar(slashes, '-', '_');
    var colons := SubstAll(dashes, ":", "_colon_");
    if '/' in dashes {
      SubstCharRemoves(slashes, '-', '_', '/');
      SubstCharRemoves(raw, '/', '_', '/');
    }
    assert '-' !in dashes by {
      if '-' in dashes { SubstCharRemoves(slashes, '-', '_', '-'); }
    }
    if '/' in colons { SubstAllChars(dashes, ":", "_colon_", '/'); }
    if '-' in colons { SubstAllChars(dashes, ":", "_colon_", '-'); }
    SubstAllRemoves(dashes, ":", "_colon_");
  }

  /** A legal name is left unchanged. */
  lemma LegalizeKeepsLegal(s: string)
    requires IsLegalName(s)
    ensures Legalize(s) == s
  {
    assert SubstChar(s, '/', '_') == s;
    assert SubstChar(s, '-', '_') == s;
    forall i | 0 <= i < |s|
      ensures !MatchAt(s, ":", i)
    {
      if i + 1 <= |s| {
        assert s[i..i + 1] == [s[i]];
      }
    }
    SubstAllNoMatch(s, ":", "_colon_");
  }

  /** The fixed points of `legalize_name` are exactly the legal names. */
  lemma LegalizeFixedPoints(s: string)
    ensures Legalize(s) == s <==> IsLegalName(s)
  {
    if IsLegalName(s) {
      LegalizeKeepsLegal(s);
    } else {
      LegalizeIsLegal(s);
    }
  }

  /** `legalize_name` is idempotent. */
  lemma LegalizeIdempotent(raw: string)
    ensures Legalize(Legalize(raw)) == Legalize(raw)
  {
    LegalizeIsLegal(raw);
    LegalizeKeepsLegal(Legalize(raw));
  }
}
