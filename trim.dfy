/**
 * The specification of ini_parser::removeSpaces: strip every leading and every
 * trailing ASCII space (0x20) from a string, and nothing else.  Tabs, '\r' and
 * all other characters are kept.
 */
module Trim {

  /** True when every character of s is the ASCII space. */
  predicate AllSpaces(s: string) {
    forall k :: 0 <= k < |s| ==> s[k] == ' '
  }

  /** s without its maximal leading run of spaces. */
  function TrimLeft(s: string): (r: string)
    ensures |r| <= |s| && r == s[|s| - |r|..]
    ensures AllSpaces(s[..|s| - |r|])
    ensures r != [] ==> r[0] != ' '
  {
    if |s| > 0 && s[0] == ' ' then TrimLeft(s[1..]) else s
  }

  /** s without its maximal trailing run of spaces. */
  function TrimRight(s: string): (r: string)
    ensures |r| <= |s| && r == s[..|r|]
    ensures AllSpaces(s[|r|..])
    ensures r != [] ==> r[|r| - 1] != ' '
  {
    if |s| > 0 && s[|s| - 1] == ' ' then TrimRight(s[..|s| - 1]) else s
  }

  /** s without its leading and its trailing spaces. */
  function Trimmed(s: string): (r: string)
    ensures |r| <= |s|
    ensures r != [] ==> r[0] != ' ' && r[|r| - 1] != ' '
  {
    TrimRight(TrimLeft(s))
  }

  /**
   * An independent description of trimming: r is the slice s[i..j] of s, everything
   * cut off on either side is a space, and r neither starts nor ends with a space.
   */
  ghost predicate IsTrimOf(s: string, r: string) {
    exists i, j ::
      0 <= i <= j <= |s| && r == s[i..j] && AllSpaces(s[..i]) && AllSpaces(s[j..]) &&
      (r != [] ==> r[0] != ' ' && r[|r| - 1] != ' ')
  }

  lemma TrimLeftAt(s: string, i: nat)
    requires i <= |s| && AllSpaces(s[..i]) && (i < |s| ==> s[i] != ' ')
    ensures TrimLeft(s) == s[i..]
  {
    if i > 0 {
      assert s[0] == s[..i][0];
      var u := s[1..i];
      assert s[1..][..i - 1] == u;
      assert AllSpaces(u) by {
        forall k | 0 <= k < |u| ensures u[k] == ' ' { assert u[k] == s[..i][k + 1]; }
      }
      TrimLeftAt(s[1..], i - 1);
    }
  }

  lemma TrimRightAt(s: string, j: nat)
    requires j <= |s| && AllSpaces(s[j..]) && (j > 0 ==> s[j - 1] != ' ')
    ensures TrimRight(s) == s[..j]
  {
    if j < |s| {
      assert s[|s| - 1] == s[j..][|s| - 1 - j];
      var t := s[..|s| - 1];
      assert t[j..] == s[j..|s| - 1];
      assert AllSpaces(t[j..]) by {
        forall k | 0 <= k < |t| - j ensures t[j..][k] == ' ' { assert s[j..|s| - 1][k] == s[j..][k]; }
      }
      TrimRightAt(t, j);
      assert t[..j] == s[..j];
    }
  }

  /** Trimmed meets the slice description. */
  lemma TrimmedIsTrim(s: string)
    ensures IsTrimOf(s, Trimmed(s))
  {
    var l := TrimLeft(s);
    var i := |s| - |l|;
    var r := TrimRight(l);
    var j := i + |r|;
    assert l == s[i..];
    assert r == s[i..j];
    assert s[j..] == l[|r|..];
  }

  lemma AllSpacesAround(s: string, i: nat)
    requires i <= |s| && AllSpaces(s[..i]) && AllSpaces(s[i..])
    ensures AllSpaces(s)
  {
    forall k | 0 <= k < |s| ensures s[k] == ' ' {
      if k < i { assert s[k] == s[..i][k]; } else { assert s[k] == s[i..][k - i]; }
    }
  }

  lemma SuffixSlices(s: string, i: nat, j: nat)
    requires i < j <= |s|
    ensures s[i..][j - i..] == s[j..] && s[i..][j - i - 1] == s[j - 1] && s[i..][..j - i] == s[i..j]
  {
  }

  lemma TrimmedSlice(s: string, i: nat, j: nat)
    requires i < j <= |s| && AllSpaces(s[..i]) && AllSpaces(s[j..])
    requires s[i] != ' ' && s[j - 1] != ' '
    ensures Trimmed(s) == s[i..j]
  {
    SuffixSlices(s, i, j);
    TrimLeftAt(s, i);
    TrimRightAt(s[i..], j - i);
  }

  /** The slice description has exactly one solution: the result of Trimmed. */
  lemma TrimUnique(s: string, r: string)
    requires IsTrimOf(s, r)
    ensures r == Trimmed(s)
  {
    var i, j :| 0 <= i <= j <= |s| && r == s[i..j] && AllSpaces(s[..i]) && AllSpaces(s[j..]) &&
                (r != [] ==> r[0] != ' ' && r[|r| - 1] != ' ');
    if i == j {
      AllSpacesAround(s, i);
      TrimLeftAt(s, |s|);
    } else {
      assert s[i] == r[0] && s[j - 1] == r[|r| - 1];
      TrimmedSlice(s, i, j);
    }
  }

  /** Trimming twice is the same as trimming once. */
  lemma TrimIdempotent(s: string)
    ensures Trimmed(Trimmed(s)) == Trimmed(s)
  {
    var r := Trimmed(s);
    assert r[..0] == [] && r[|r|..] == [];
    assert r[0..|r|] == r;
    assert IsTrimOf(r, r);
    TrimUnique(r, r);
  }
}
