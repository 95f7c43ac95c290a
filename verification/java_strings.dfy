/** The two `java.lang.String` operations the parser relies on. */
module JavaStrings {

  /** `String.trim`: drops every leading and trailing character whose code is at most U+0020. */
  function Trim(s: string): (t: string)
    ensures |t| <= |s|
    ensures |t| > 0 ==> t[0] > ' ' && t[|t| - 1] > ' '
    ensures (forall k :: 0 <= k < |s| ==> s[k] > ' ') ==> t == s
  {
    TrimRight(TrimLeft(s))
  }

  function TrimLeft(s: string): (t: string)
    ensures |t| <= |s| && t == s[|s| - |t|..]
    ensures |t| > 0 ==> t[0] > ' '
    ensures |s| > 0 && s[0] > ' ' ==> t == s
  {
    if |s| > 0 && s[0] <= ' ' then TrimLeft(s[1..]) else s
  }

  function TrimRight(s: string): (t: string)
    ensures |t| <= |s| && t == s[..|t|]
    ensures |t| > 0 ==> t[|t| - 1] > ' '
    ensures |s| > 0 && s[|s| - 1] > ' ' ==> t == s
  {
    if |s| > 0 && s[|s| - 1] <= ' ' then TrimRight(s[..|s| - 1]) else s
  }

  /** The number of characters `trim` drops from the front. */
  function Leading(s: string): (n: nat)
    ensures n <= |s|
  {
    |s| - |TrimLeft(s)|
  }

  lemma {:induction false} TrimLeftDrops(s: string)
    ensures forall k :: 0 <= k < Leading(s) ==> s[k] <= ' '
  {
    if |s| > 0 && s[0] <= ' ' {
      TrimLeftDrops(s[1..]);
      assert forall k :: 1 <= k < Leading(s) ==> s[k] == s[1..][k - 1];
    }
  }

  lemma {:induction false} TrimRightDrops(s: string)
    ensures forall k :: |TrimRight(s)| <= k < |s| ==> s[k] <= ' '
  {
    if |s| > 0 && s[|s| - 1] <= ' ' {
      TrimRightDrops(s[..|s| - 1]);
      assert forall k :: |TrimRight(s)| <= k < |s| - 1 ==> s[k] == s[..|s| - 1][k];
    }
  }

  lemma TrimStretch(s: string)
    ensures Leading(s) + |Trim(s)| <= |s| && Trim(s) == s[Leading(s)..Leading(s) + |Trim(s)|]
  {
    var l := TrimLeft(s);
    var i := Leading(s);
    assert l == s[i..];
    assert Trim(s) == l[..|Trim(s)|];
  }

  lemma TrimTail(s: string)
    ensures forall k :: Leading(s) + |Trim(s)| <= k < |s| ==> s[k] <= ' '
  {
    var l := TrimLeft(s);
    TrimRightDrops(l);
    BlankSuffix(s, Leading(s), l, |Trim(s)|);
  }

  /** Blanks at the end of a suffix are blanks at the end of the whole. */
  lemma BlankSuffix(s: string, i: nat, l: string, n: nat)
    requires i <= |s| && l == s[i..] && n <= |l|
    requires forall m :: n <= m < |l| ==> l[m] <= ' '
    ensures forall k :: i + n <= k < |s| ==> s[k] <= ' '
  {
    forall k | i + n <= k < |s|
      ensures s[k] <= ' '
    {
      assert s[k] == l[k - i];
    }
  }

  /**
   * What `trim` keeps is one stretch of `s`: every character before it and every
   * character after it is at most U+0020, and the stretch itself, when not empty,
   * starts and ends above U+0020.
   */
  lemma TrimExact(s: string)
    ensures Leading(s) + |Trim(s)| <= |s| && Trim(s) == s[Leading(s)..Leading(s) + |Trim(s)|]
    ensures forall k :: 0 <= k < Leading(s) ==> s[k] <= ' '
    ensures forall k :: Leading(s) + |Trim(s)| <= k < |s| ==> s[k] <= ' '
  {
    TrimStretch(s);
    TrimLeftDrops(s);
    TrimTail(s);
  }

  /** `String.indexOf`: the first position of `c`, or -1 when `c` does not occur. */
  function IndexOf(s: string, c: char): (r: int)
    ensures -1 <= r < |s|
    ensures r == -1 <==> c !in s
    ensures r >= 0 ==> s[r] == c && c !in s[..r]
  {
    if |s| == 0 then -1
    else if s[0] == c then 0
    else
      var k := IndexOf(s[1..], c);
      if k == -1 then -1
      else
        assert s[..k + 1] == [s[0]] + s[1..][..k];
        k + 1
  }

  lemma {:induction false} TrimLeftKeeps(s: string, k: nat)
    requires k < |s| && s[k] > ' '
    ensures |s| - |TrimLeft(s)| <= k
  {
    if s[0] <= ' ' {
      TrimLeftKeeps(s[1..], k - 1);
    }
  }

  lemma {:induction false} TrimRightKeeps(s: string, k: nat)
    requires k < |s| && s[k] > ' '
    ensures |TrimRight(s)| > k
  {
    if s[|s| - 1] <= ' ' {
      TrimRightKeeps(s[..|s| - 1], k);
    }
  }

  /** Trimming keeps every character above U+0020, so it never empties a string that has one. */
  lemma TrimKeeps(s: string, k: nat)
    requires k < |s| && s[k] > ' '
    ensures |Trim(s)| > 0
  {
    TrimLeftKeeps(s, k);
    var t := TrimLeft(s);
    var j := k - (|s| - |t|);
    assert t[j] == s[k];
    TrimRightKeeps(t, j);
  }

  /** `indexOf` finds the first occurrence. */
  lemma IndexOfAt(s: string, c: char, k: nat)
    requires k < |s| && s[k] == c && c !in s[..k]
    ensures IndexOf(s, c) == k
  {
    var r := IndexOf(s, c);
    forall m | 0 <= m < k
      ensures s[m] != c
    {
      assert s[..k][m] == s[m];
    }
    assert s[k] in s;
    forall m | 0 <= m < r
      ensures s[m] != c
    {
      assert s[..r][m] == s[m];
    }
  }
}
