/** GetInteractionIndex: which recorded height a query at height t is answered from. It is meant to
    be the greatest recorded height that is not above t; the loop in the source has no break and
    yields the smallest one. */
module InteractionIndex {
  import opened Decimal
  import opened GoStrings
  import opened Variables
  import opened Sorting

  function Descent(h: Int64): int { 0 - h }

  function Greatest(hs: seq<Int64>): (m: Int64)
    requires hs != []
    ensures m in hs && forall h | h in hs :: h <= m
  {
    if |hs| == 1 then hs[0]
    else
      var m := Greatest(hs[1..]);
      assert hs == [hs[0]] + hs[1..];
      if hs[0] > m then hs[0] else m
  }

  function Least(hs: seq<Int64>): (m: Int64)
    requires hs != []
    ensures m in hs && forall h | h in hs :: m <= h
  {
    if |hs| == 1 then hs[0]
    else
      var m := Least(hs[1..]);
      assert hs == [hs[0]] + hs[1..];
      if hs[0] < m then hs[0] else m
  }

  /** What the code returns, whatever the order of the list: the greatest height when t is negative
      or above all heights; otherwise the least height, or 0 when t is below that. */
  function AsWritten(hs: seq<Int64>, t: Int64): Int64 {
    if hs == [] then 0
    else if t > Greatest(hs) || t < 0 then Greatest(hs)
    else if Least(hs) <= t then Least(hs)
    else 0
  }

  function NotAbove(hs: seq<Int64>, t: Int64): (r: seq<Int64>)
    ensures forall h :: h in r <==> h in hs && h <= t
    ensures r == [] <==> forall h | h in hs :: h > t
  {
    if hs == [] then []
    else
      assert forall h :: h in hs <==> h == hs[0] || h in hs[1..];
      assert hs[0] in hs;
      var rest := NotAbove(hs[1..], t);
      if hs[0] <= t then [hs[0]] + rest else rest
  }

  /** What a reader is meant to get: the greatest recorded height not above t, 0 when there is
      none; the greatest of all for a negative t. */
  function Intended(hs: seq<Int64>, t: Int64): Int64 {
    if hs == [] then 0
    else if t < 0 then Greatest(hs)
    else if NotAbove(hs, t) == [] then 0
    else Greatest(NotAbove(hs, t))
  }

  /** sort.SliceStable with `>`, in place. */
  method SortDescending(heights: array<Int64>)
    modifies heights
    ensures heights[..] == SortBy(old(heights[..]), Descent)
  {
    var sorted := SortBy(heights[..], Descent);
    SameMultisetSameElements(sorted, heights[..]);
    forall i | 0 <= i < heights.Length {
      heights[i] := sorted[i];
    }
  }

  /** After sorting, the first element is the greatest and the heights fall. */
  lemma SortedDescending(hs: seq<Int64>)
    requires hs != []
    ensures var s := SortBy(hs, Descent);
      |s| == |hs| && s[0] == Greatest(hs) && (forall i, j | 0 <= i < j < |s| :: s[i] >= s[j]) &&
      forall h :: h in s <==> h in hs
  {
    var s := SortBy(hs, Descent);
    SortBySorted(hs, Descent);
    SameMultisetSameElements(s, hs);
    forall i, j | 0 <= i < j < |s| ensures s[i] >= s[j] {
      assert Descent(s[i]) <= Descent(s[j]);
    }
    assert Greatest(hs) in s;
    var g :| 0 <= g < |s| && s[g] == Greatest(hs);
    assert s[0] in hs;
  }

  /** The code, its in-place sort and its loop included. */
  method GetInteractionIndex(topoheight: Int64, heights: array<Int64>) returns (height: Int64)
    modifies heights
    ensures height == AsWritten(old(heights[..]), topoheight)
    ensures heights[..] == SortBy(old(heights[..]), Descent)
  {
    height := 0;
    ghost var hs := heights[..];
    if heights.Length <= 0 {
      return;
    }
    hide SortBy, Greatest, Least;
    SortDescending(heights);
    assert heights[..][0] == Greatest(hs) by { SortedDescending(hs); }
    if topoheight > heights[0] || topoheight < 0 {
      return heights[0];
    }
    ghost var s := heights[..];
    LastIsLeast(hs);
    for i := 0 to heights.Length
      invariant heights[..] == s
      invariant height == if i > 0 && s[i - 1] <= topoheight then s[i - 1] else 0
    {
      var h := heights[i];
      assert i > 0 ==> s[i - 1] >= s[i] by { SortedDescending(hs); }
      if h <= topoheight {
        height := h;
      }
    }
  }

  lemma LastIsLeast(hs: seq<Int64>)
    requires hs != []
    ensures |SortBy(hs, Descent)| == |hs| && SortBy(hs, Descent)[|hs| - 1] == Least(hs)
  {
    hide SortBy, Least;
    SortedDescending(hs);
    var s := SortBy(hs, Descent);
    assert Least(hs) in s;
    var g :| 0 <= g < |s| && s[g] == Least(hs);
    assert s[g] >= s[|hs| - 1];
    assert s[|hs| - 1] in hs;
  }

  /** The first n heights are above t. */
  ghost predicate AboveFirst(s: seq<Int64>, n: nat, t: Int64) {
    n <= |s| && forall j | 0 <= j < n :: s[j] > t
  }

  /** The same code with the loop left at the first height that is low enough. */
  method RepairedInteractionIndex(topoheight: Int64, heights: array<Int64>) returns (height: Int64)
    modifies heights
    ensures height == Intended(old(heights[..]), topoheight)
  {
    height := 0;
    ghost var hs := heights[..];
    if heights.Length <= 0 {
      return;
    }
    hide Intended, SortBy, Greatest, Least, AboveFirst;
    SortDescending(heights);
    ghost var s := heights[..];
    assert s[0] == Greatest(hs) by { SortedDescending(hs); }
    if topoheight > heights[0] || topoheight < 0 {
      IntendedBeyond(hs, topoheight);
      return heights[0];
    }
    AboveNone(s, topoheight);
    for i := 0 to heights.Length
      invariant heights[..] == s && height == 0 && AboveFirst(s, i, topoheight)
    {
      var h := heights[i];
      if h <= topoheight {
        IntendedIs(hs, topoheight, s, i);
        return h;
      }
      AboveOneMore(s, i, topoheight);
    }
    NoneIntended(hs, topoheight, s);
  }

  lemma AboveNone(s: seq<Int64>, t: Int64)
    ensures AboveFirst(s, 0, t)
  {
  }

  lemma AboveOneMore(s: seq<Int64>, n: nat, t: Int64)
    requires AboveFirst(s, n, t) && n < |s| && s[n] > t
    ensures AboveFirst(s, n + 1, t)
  {
  }

  lemma IntendedIs(hs: seq<Int64>, t: Int64, s: seq<Int64>, i: nat)
    requires hs != [] && s == SortBy(hs, Descent) && i < |s|
    requires t >= 0 && s[i] <= t && AboveFirst(s, i, t)
    ensures Intended(hs, t) == s[i]
  {
    hide SortBy, Greatest, NotAbove;
    SortedDescending(hs);
    var low := NotAbove(hs, t);
    assert s[i] in low;
    assert Greatest(low) in s;
    var g :| 0 <= g < |s| && s[g] == Greatest(low);
    assert g >= i;
  }

  lemma IntendedBeyond(hs: seq<Int64>, t: Int64)
    requires hs != [] && (t < 0 || t > Greatest(hs))
    ensures Intended(hs, t) == Greatest(hs)
  {
    if t > Greatest(hs) {
      assert Greatest(hs) in NotAbove(hs, t);
      assert Greatest(NotAbove(hs, t)) in hs;
    }
  }

  lemma NoneIntended(hs: seq<Int64>, t: Int64, s: seq<Int64>)
    requires hs != [] && s == SortBy(hs, Descent) && t >= 0 && AboveFirst(s, |s|, t)
    ensures Intended(hs, t) == 0
  {
    SortedDescending(hs);
  }

  /** Any two lists with the same heights, in any order and with any repetitions, get the same
      answer. */
  lemma OrderDoesNotMatter(p: seq<Int64>, q: seq<Int64>, t: Int64)
    requires forall h :: h in p <==> h in q
    ensures AsWritten(p, t) == AsWritten(q, t)
  {
    if p == [] {
      assert q == [] || q[0] in q;
    } else {
      assert p[0] in q;
      assert Greatest(p) in q && Greatest(q) in p && Least(p) in q && Least(q) in p;
    }
  }

  /** The code gives the intended height exactly when t is negative, or above all heights, or at
      most one recorded height is not above t. */
  lemma AgreesIff(hs: seq<Int64>, t: Int64)
    ensures AsWritten(hs, t) == Intended(hs, t) <==>
      hs == [] || t < 0 || t > Greatest(hs) || forall g, h | g in hs && h in hs && g <= t && h <= t :: g == h
  {
    if hs != [] && 0 <= t {
      var low := NotAbove(hs, t);
      if t > Greatest(hs) {
        assert Greatest(hs) in low;
        assert Greatest(low) in hs;
      } else if low == [] {
        assert Least(hs) !in low;
      } else {
        assert low[0] in low;
        assert Least(hs) in low;
        assert Greatest(low) in low && Greatest(low) in hs;
      }
    }
  }

  /** With three heights the query in the middle is answered from the oldest one. */
  lemma AnsweredTooEarly()
    ensures AsWritten([3, 1, 2], 2) == 1 && Intended([3, 1, 2], 2) == 2
  {
    var hs: seq<Int64> := [3, 1, 2];
    assert hs[1] == 1 && hs[0] == 3 && hs[2] == 2;
    assert 1 in hs && 2 in hs && 3 in hs;
    assert Greatest(hs) == 3 && Least(hs) == 1;
    assert 2 in NotAbove(hs, 2) && 1 in NotAbove(hs, 2);
  }

  /** The height a query should use shows the same variables as t itself, once t has reached the
      first interaction and the contract's snapshots lie at its install and interaction heights. */
  lemma IntendedViewIsViewAt(snaps: Snapshots, install: Int64, hs: seq<Int64>, t: Int64)
    requires hs != [] && Least(hs) <= t && 0 <= t && install <= Least(hs)
    requires forall h | h in snaps :: h == install || h in hs
    ensures UpTo(snaps, Intended(hs, t)) == UpTo(snaps, t)
  {
    var low := NotAbove(hs, t);
    assert Least(hs) in low;
    assert Greatest(low) in low;
    forall h | h in snaps ensures !(Intended(hs, t) < h <= t) {
      if h in hs && h <= t { assert h in low; }
    }
    ViewConstant(snaps, Intended(hs, t), t);
  }

  /** The height the code uses, by cases: 0 for a contract without interactions and below the first
      one, the greatest for a negative t or beyond all, else the least. From t = 0 on it is not above t.
      Where it is the least, the query shows the view at the first interaction; where it is the
      greatest, all snapshots. */
  lemma WrittenView(snaps: Snapshots, install: Int64, hs: seq<Int64>, t: Int64)
    ensures hs == [] || 0 <= t < Least(hs) ==> AsWritten(hs, t) == 0
    ensures hs != [] && Least(hs) <= t <= Greatest(hs) && 0 <= t ==>
      UpTo(snaps, AsWritten(hs, t)) == UpTo(snaps, Least(hs))
    ensures hs != [] && (t < 0 || t > Greatest(hs)) ==> AsWritten(hs, t) == Greatest(hs)
    ensures hs != [] && install <= Least(hs) && (forall h | h in snaps :: h == install || h in hs) ==>
      UpTo(snaps, Greatest(hs)) == snaps
    ensures 0 <= t ==> AsWritten(hs, t) <= t
  {
    if hs != [] {
      assert Greatest(hs) in hs && Least(hs) in hs;
    }
  }

  /** For every list and every t from 0 on: a key is answered as at t exactly when the snapshots above the
      height in use, up to t, say nothing new about it. */
  lemma AnsweredAsAtIff(snaps: Snapshots, hs: seq<Int64>, t: Int64, k: Any)
    requires 0 <= t
    ensures SameAnswer(UpTo(snaps, AsWritten(hs, t)), UpTo(snaps, t), k) <==> NothingNew(snaps, AsWritten(hs, t), t, k)
  {
    hide SameAnswer, NothingNew, UpTo;
    SameAnswerIff(snaps, AsWritten(hs, t), t, k);
  }

  /** A contract that is not yet invoked, or not yet at t: the height in use is 0, the intended one too,
      and nothing is answered although the install snapshot is stored. For a key that is the answer at t
      exactly when there is none. */
  lemma NotYetInvoked(snaps: Snapshots, install: Int64, hs: seq<Int64>, t: Int64, k: Any)
    requires 0 < install && forall h | h in snaps :: install <= h
    requires if hs == [] then true else 0 <= t < Least(hs)
    ensures AsWritten(hs, t) == Intended(hs, t) == 0
    ensures forall v :: !Answers(UpTo(snaps, AsWritten(hs, t)), k, v)
    ensures SameAnswer(UpTo(snaps, AsWritten(hs, t)), UpTo(snaps, t), k) <==> forall v :: !Answers(UpTo(snaps, t), k, v)
  {
    assert UpTo(snaps, 0) == map[];
    if hs != [] {
      assert Greatest(hs) in hs;
      assert NotAbove(hs, t) == [];
    }
  }
}
