/**
 Python's `str.strip(chars)`: removes every leading and every trailing
 character that belongs to the set `chars`. It is not a prefix or suffix
 removal: `"0x10".strip("0x")` is `"1"`.
 */
module Stripping {

  /** Drops leading characters that are in `cs`. */
  function LStrip(s: string, cs: set<char>): string
    decreases |s|
  {
    if |s| > 0 && s[0] in cs then LStrip(s[1..], cs) else s
  }

  /**
   `LStrip` keeps a suffix of `s`, everything it drops is in `cs`, and what
   it keeps does not start with a character of `cs`.
   */
  lemma {:induction false} LStripSpec(s: string, cs: set<char>)
    ensures var r := LStrip(s, cs);
      && |r| <= |s| && r == s[|s| - |r|..]
      && (forall k :: 0 <= k < |s| - |r| ==> s[k] in cs)
      && (r == [] || r[0] !in cs)
    decreases |s|
  {
    if |s| > 0 && s[0] in cs {
      LStripSpec(s[1..], cs);
    }
  }

  /** Drops trailing characters that are in `cs`. */
  function RStrip(s: string, cs: set<char>): string
    decreases |s|
  {
    if |s| > 0 && s[|s| - 1] in cs then RStrip(s[..|s| - 1], cs) else s
  }

  /**
   `RStrip` keeps a prefix of `s`, everything it drops is in `cs`, and what
   it keeps does not end with a character of `cs`.
   */
  lemma {:induction false} RStripSpec(s: string, cs: set<char>)
    ensures var r := RStrip(s, cs);
      && |r| <= |s| && r == s[..|r|]
      && (forall k :: |r| <= k < |s| ==> s[k] in cs)
      && (r == [] || r[|r| - 1] !in cs)
    decreases |s|
  {
    if |s| > 0 && s[|s| - 1] in cs {
      RStripSpec(s[..|s| - 1], cs);
    }
  }

  /** `s.strip(cs)` */
  function Strip(s: string, cs: set<char>): (r: string)
    ensures |r| <= |s|
    ensures r == [] || (r[0] !in cs && r[|r| - 1] !in cs)
  {
    var t := LStrip(s, cs);
    LStripSpec(s, cs);
    RStripSpec(t, cs);
    RStrip(t, cs)
  }

  /** The result is empty exactly when every character of `s` is in `cs`. */
  lemma StripEmpty(s: string, cs: set<char>)
    ensures Strip(s, cs) == [] <==> forall k :: 0 <= k < |s| ==> s[k] in cs
  {
    var t := LStrip(s, cs);
    LStripSpec(s, cs);
    RStripSpec(t, cs);
    var r := RStrip(t, cs);
    if r != [] {
      assert s[|s| - |t|] == t[0] == r[0];
    }
  }

  /**
   `r` is `s[i..j]`, everything before `i` and from `j` on is in `cs`, and
   `r` itself neither starts nor ends with a character of `cs`.
   */
  ghost predicate StripWitness(r: string, s: string, cs: set<char>, i: int, j: int) {
    && 0 <= i <= j <= |s| && r == s[i..j]
    && (forall k :: 0 <= k < i ==> s[k] in cs)
    && (forall k :: j <= k < |s| ==> s[k] in cs)
    && (r == [] || (r[0] !in cs && r[|r| - 1] !in cs))
  }

  /** The reference description of stripping: some slice bounds witness it. */
  ghost predicate IsStripOf(r: string, s: string, cs: set<char>) {
    exists i, j :: StripWitness(r, s, cs, i, j)
  }

  /** `Strip` meets the reference description. */
  lemma StripIsStripOf(s: string, cs: set<char>)
    ensures IsStripOf(Strip(s, cs), s, cs)
  {
    var t := LStrip(s, cs);
    var r := RStrip(t, cs);
    LStripSpec(s, cs);
    RStripSpec(t, cs);
    var i := |s| - |t|;
    var j := i + |r|;
    assert r == s[i..j];
    assert forall k :: j <= k < |s| ==> s[k] == t[k - i];
    assert StripWitness(r, s, cs, i, j);
  }

  /** A stripped result is empty exactly when every character of `s` is in `cs`. */
  lemma StripWitnessEmpty(r: string, s: string, cs: set<char>, i: int, j: int)
    requires StripWitness(r, s, cs, i, j)
    ensures r == [] <==> forall k :: 0 <= k < |s| ==> s[k] in cs
  {
    if r != [] {
      assert s[i] == r[0];
    }
  }

  /** Two witnesses of non-empty results have the same bounds. */
  lemma StripWitnessBounds(r1: string, r2: string, s: string, cs: set<char>, i1: int, j1: int, i2: int, j2: int)
    requires StripWitness(r1, s, cs, i1, j1) && StripWitness(r2, s, cs, i2, j2)
    requires r1 != [] && r2 != []
    ensures i1 == i2 && j1 == j2
  {
    assert s[i1] == r1[0] && s[i2] == r2[0];
    assert s[j1 - 1] == r1[|r1| - 1] && s[j2 - 1] == r2[|r2| - 1];
  }

  /** At most one string meets the reference description. */
  lemma StripOfUnique(r1: string, r2: string, s: string, cs: set<char>)
    requires IsStripOf(r1, s, cs) && IsStripOf(r2, s, cs)
    ensures r1 == r2
  {
    var i1, j1 :| StripWitness(r1, s, cs, i1, j1);
    var i2, j2 :| StripWitness(r2, s, cs, i2, j2);
    StripWitnessEmpty(r1, s, cs, i1, j1);
    StripWitnessEmpty(r2, s, cs, i2, j2);
    if r1 != [] && r2 != [] {
      StripWitnessBounds(r1, r2, s, cs, i1, j1, i2, j2);
    }
  }

  /** Hence `Strip` is the only result the reference description admits. */
  lemma StripCharacterized(r: string, s: string, cs: set<char>)
    ensures IsStripOf(r, s, cs) <==> r == Strip(s, cs)
  {
    StripIsStripOf(s, cs);
    if IsStripOf(r, s, cs) {
      StripOfUnique(r, Strip(s, cs), s, cs);
    }
  }
}
