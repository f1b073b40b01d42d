/** Contract variables: one snapshot per height, and the view that a query rebuilds from them. */
module Variables {
  import opened Wrappers
  import opened Decimal
  import opened Float64

  /** An untyped Go value. `Other` is a JSON array or object. A `Float` is integer-valued here,
      because only unsigned integers are ever written as numbers. */
  datatype Any =
    | Nil
    | Boolean(b: bool)
    | Uint(n: Uint64)
    | Float(f: nat)
    | Text(s: string)
    | Other

  datatype Variable = Variable(key: Any, value: Any)

  type Snapshot = seq<Variable>
  type Snapshots = map<Int64, Snapshot>

  /** json.Unmarshal after json.Marshal, into an untyped value: every number becomes a float64. */
  function Reread(a: Any): Any {
    match a
    case Uint(n) => Float(Round(n))
    case Float(f) => Float(Round(f))
    case _ => a
  }

  /** A number that float64 holds exactly for sure; anything that is not a number. */
  predicate IsSmall(a: Any) {
    (a.Uint? ==> a.n <= TWO_53) && (a.Float? ==> a.f <= TWO_53)
  }

  /** Storing and reading back does not change which key an entry sets, nor its value, as long as its
      numbers are at most 2^53; so no two such keys merge. */
  lemma SmallNumbersSurvive(a: Any, b: Any)
    requires IsSmall(a) && IsSmall(b)
    ensures KeyOf(Reread(a)) == KeyOf(a) && ValueOf(Reread(a)) == ValueOf(a)
    ensures KeyOf(Reread(a)) == KeyOf(Reread(b)) <==> KeyOf(a) == KeyOf(b)
  {
    if a.Uint? { RoundExact(a.n); }
    if a.Float? { RoundExact(a.f); }
    if b.Uint? { RoundExact(b.n); }
    if b.Float? { RoundExact(b.f); }
  }

  /** A whole snapshot as json.Unmarshal returns it. */
  function Decode(snap: Snapshot): (r: Snapshot)
    ensures |r| == |snap|
    ensures forall i | 0 <= i < |snap| :: r[i] == Variable(Reread(snap[i].key), Reread(snap[i].value))
  {
    seq(|snap|, i requires 0 <= i < |snap| => Variable(Reread(snap[i].key), Reread(snap[i].value)))
  }

  /** The map key a stored key becomes; None when it is neither a number nor a string. */
  function KeyOf(a: Any): Option<Any> {
    match a
    case Float(f) => Some(Uint(ToUint64(f)))
    case Uint(_) => Some(a)
    case Text(_) => Some(a)
    case _ => None
  }

  /** The map value a stored value becomes: null is kept (and hides the key), other
      unsupported values are skipped. */
  function ValueOf(a: Any): Option<Any> {
    match a
    case Float(f) => Some(Uint(ToUint64(f)))
    case Uint(_) => Some(a)
    case Text(_) => Some(a)
    case Nil => Some(Nil)
    case _ => None
  }

  /** The decoded entry sets key k. */
  predicate Sets(e: Variable, k: Any) {
    KeyOf(e.key) == Some(k) && ValueOf(e.value).Some?
  }

  /** Entry i of the snapshot at height h is the last one, by height and then by position,
      that sets k with a supported value. */
  ghost predicate IsLatest(snaps: Snapshots, k: Any, h: Int64, i: int) {
    h in snaps && 0 <= i < |snaps[h]| &&
    Sets(Decode(snaps[h])[i], k) &&
    (forall j | i < j < |snaps[h]| :: !Sets(Decode(snaps[h])[j], k)) &&
    (forall g | g in snaps && g > h :: Silent(snaps[g], k))
  }

  /** No entry of the snapshot sets k. */
  ghost predicate Silent(snap: Snapshot, k: Any) {
    forall j | 0 <= j < |snap| :: !Sets(Decode(snap)[j], k)
  }

  ghost predicate HasLatest(snaps: Snapshots, k: Any, h: Int64, i: int, v: Any) {
    IsLatest(snaps, k, h, i) && ValueOf(Decode(snaps[h])[i].value) == Some(v)
  }

  /** What the repository promises a reader: k has value v when the latest entry for k says so
      and that entry is not null. */
  ghost predicate Answers(snaps: Snapshots, k: Any, v: Any) {
    v != Nil && exists h, i :: HasLatest(snaps, k, h, i, v)
  }

  /** The snapshots a query at height t may look at. */
  function UpTo(snaps: Snapshots, t: int): Snapshots {
    map h | h in snaps && h <= t :: snaps[h]
  }

  /** A key has one latest entry at most, so one answer at most. */
  lemma AnswerUnique(snaps: Snapshots, k: Any, v: Any, w: Any)
    requires Answers(snaps, k, v) && Answers(snaps, k, w)
    ensures v == w
  {
    var h, i :| HasLatest(snaps, k, h, i, v);
    var g, j :| HasLatest(snaps, k, g, j, w);
    LatestPositionUnique(snaps, k, h, i, g, j);
  }

  lemma LatestPositionUnique(snaps: Snapshots, k: Any, h: Int64, i: int, g: Int64, j: int)
    requires IsLatest(snaps, k, h, i) && IsLatest(snaps, k, g, j)
    ensures h == g && i == j
  {
  }

  /** Only unsigned integers and strings are ever answered. */
  predicate IsScalar(a: Any) {
    a.Uint? || a.Text?
  }

  lemma AnswersAreScalars(snaps: Snapshots, k: Any, v: Any)
    requires Answers(snaps, k, v)
    ensures IsScalar(k) && IsScalar(v)
  {
  }

  /** Between heights without a snapshot the view does not change. */
  lemma ViewConstant(snaps: Snapshots, low: int, high: int)
    requires low <= high && forall h | h in snaps :: !(low < h <= high)
    ensures UpTo(snaps, low) == UpTo(snaps, high)
  {
  }

  // ---- When two views agree on a key ----

  /** Position of the last entry among the first n that sets k, or -1. */
  function LastSetter(snap: Snapshot, n: nat, k: Any): (i: int)
    requires n <= |snap|
    ensures -1 <= i < n
    ensures i >= 0 ==> Sets(snap[i], k)
    ensures forall j | i < j < n && j >= 0 :: !Sets(snap[j], k)
  {
    if n == 0 then -1 else if Sets(snap[n - 1], k) then n - 1 else LastSetter(snap, n - 1, k)
  }

  /** The same for a whole stored snapshot. */
  function Setter(snap: Snapshot, k: Any): (i: int)
    ensures -1 <= i < |snap|
    ensures i >= 0 ==> Sets(Decode(snap)[i], k) && forall j | i < j < |snap| :: !Sets(Decode(snap)[j], k)
    ensures i < 0 ==> Silent(snap, k)
  {
    LastSetter(Decode(snap), |snap|, k)
  }

  ghost function Above(snaps: Snapshots, g: Int64): set<Int64> {
    set h | h in snaps && h > g
  }

  /** A key that some entry sets has a latest entry. */
  lemma {:induction false} LatestExists(snaps: Snapshots, k: Any, g: Int64) returns (h: Int64)
    requires g in snaps && Setter(snaps[g], k) >= 0
    ensures h in snaps && IsLatest(snaps, k, h, Setter(snaps[h], k))
    decreases Above(snaps, g)
  {
    hide Setter, Sets;
    if later: Int64 :| later in snaps && later > g && Setter(snaps[later], k) >= 0 {
      assert later in Above(snaps, g) && later !in Above(snaps, later);
      h := LatestExists(snaps, k, later);
    } else {
      h := g;
    }
  }

  ghost predicate SameAnswer(snaps: Snapshots, snaps': Snapshots, k: Any) {
    forall v :: Answers(snaps, k, v) <==> Answers(snaps', k, v)
  }

  /** If the latest entry for k up to t lies above low, it says what the view at low says: the same
      value, or null where k has no answer. */
  ghost predicate NothingNew(snaps: Snapshots, low: int, t: int, k: Any) {
    forall h: Int64, i, v | HasLatest(UpTo(snaps, t), k, h, i, v) && h > low ::
      if v == Nil then forall w :: !Answers(UpTo(snaps, low), k, w) else Answers(UpTo(snaps, low), k, v)
  }

  /** Two views give the same answer for a key exactly when nothing new is said about it in between. */
  lemma SameAnswerIff(snaps: Snapshots, low: int, t: int, k: Any)
    requires low <= t
    ensures SameAnswer(UpTo(snaps, low), UpTo(snaps, t), k) <==> NothingNew(snaps, low, t, k)
  {
    hide IsLatest, ValueOf, UpTo;
    if NothingNew(snaps, low, t, k) {
      forall v ensures Answers(UpTo(snaps, low), k, v) <==> Answers(UpTo(snaps, t), k, v) {
        NothingNewKeeps(snaps, low, t, k, v);
      }
    } else {
      var h: Int64, i, v :| HasLatest(UpTo(snaps, t), k, h, i, v) && h > low &&
        !(if v == Nil then forall w :: !Answers(UpTo(snaps, low), k, w) else Answers(UpTo(snaps, low), k, v));
      if v == Nil {
        var w :| Answers(UpTo(snaps, low), k, w);
        OnlyLatestAnswers(UpTo(snaps, t), k, h, i, v, w);
        assert !Answers(UpTo(snaps, t), k, w);
      } else {
        assert Answers(UpTo(snaps, t), k, v);
      }
    }
  }

  lemma OnlyLatestAnswers(snaps: Snapshots, k: Any, h: Int64, i: int, v: Any, w: Any)
    requires HasLatest(snaps, k, h, i, v)
    ensures Answers(snaps, k, w) <==> w == v != Nil
  {
    if Answers(snaps, k, w) {
      var g, j :| HasLatest(snaps, k, g, j, w);
      LatestPositionUnique(snaps, k, h, i, g, j);
    }
  }

  lemma NothingNewKeeps(snaps: Snapshots, low: int, t: int, k: Any, v: Any)
    requires low <= t && NothingNew(snaps, low, t, k)
    ensures Answers(UpTo(snaps, low), k, v) <==> Answers(UpTo(snaps, t), k, v)
  {
    if h: Int64, i, u :| HasLatest(UpTo(snaps, t), k, h, i, u) {
      OnlyLatestAnswers(UpTo(snaps, t), k, h, i, u, v);
      if h <= low {
        LatestBelow(snaps, low, t, k, h, i);
        assert HasLatest(UpTo(snaps, low), k, h, i, u);
        OnlyLatestAnswers(UpTo(snaps, low), k, h, i, u, v);
      } else if u != Nil && Answers(UpTo(snaps, low), k, v) {
        AnswerUnique(UpTo(snaps, low), k, u, v);
      }
    } else {
      NoLatestBelow(snaps, low, t, k, v);
    }
  }

  lemma LatestBelow(snaps: Snapshots, low: int, t: int, k: Any, h: Int64, i: int)
    requires low <= t && h <= low && IsLatest(UpTo(snaps, t), k, h, i)
    ensures IsLatest(UpTo(snaps, low), k, h, i)
  {
    hide Sets, Silent;
  }

  lemma NoLatestBelow(snaps: Snapshots, low: int, t: int, k: Any, v: Any)
    requires low <= t && forall h: Int64, i, u :: !HasLatest(UpTo(snaps, t), k, h, i, u)
    ensures !Answers(UpTo(snaps, low), k, v) && !Answers(UpTo(snaps, t), k, v)
  {
    if Answers(UpTo(snaps, low), k, v) {
      var g, j :| HasLatest(UpTo(snaps, low), k, g, j, v);
      assert Setter(UpTo(snaps, t)[g], k) >= 0;
      var h := LatestExists(UpTo(snaps, t), k, g);
      var i := Setter(UpTo(snaps, t)[h], k);
      var value := ValueOf(Decode(UpTo(snaps, t)[h])[i].value);
      assert HasLatest(UpTo(snaps, t), k, h, i, value.value);
    }
  }

  // ---- The fold that the code performs ----

  /** One entry of the inner loop. */
  function Apply(m: map<Any, Any>, e: Variable): map<Any, Any> {
    if KeyOf(e.key).Some? && ValueOf(e.value).Some? then m[KeyOf(e.key).value := ValueOf(e.value).value] else m
  }

  /** The first n entries of a decoded snapshot, in order. */
  function ApplyFirst(m: map<Any, Any>, snap: Snapshot, n: nat): map<Any, Any>
    requires n <= |snap|
  {
    if n == 0 then m else Apply(ApplyFirst(m, snap, n - 1), snap[n - 1])
  }

  /** The first n heights of the sorted list. */
  function FoldFirst(snaps: Snapshots, heights: seq<Int64>, n: nat): map<Any, Any>
    requires n <= |heights| && forall h | h in heights :: h in snaps
  {
    if n == 0 then map[]
    else
      var snap := Decode(snaps[heights[n - 1]]);
      ApplyFirst(FoldFirst(snaps, heights, n - 1), snap, |snap|)
  }

  lemma {:induction false} ApplyFirstAt(m: map<Any, Any>, snap: Snapshot, n: nat, k: Any)
    requires n <= |snap|
    ensures var i := LastSetter(snap, n, k);
      var r := ApplyFirst(m, snap, n);
      if i < 0 then (k in r <==> k in m) && (k in m ==> r[k] == m[k])
      else k in r && Some(r[k]) == ValueOf(snap[i].value)
  {
    if n > 0 {
      ApplyFirstAt(m, snap, n - 1, k);
    }
  }

  ghost predicate NonDecreasing(hs: seq<int>) {
    forall i, j | 0 <= i < j < |hs| :: hs[i] <= hs[j]
  }

  /** Index in the sorted list of the last height, among the first n, whose snapshot sets k. */
  function LastHeight(snaps: Snapshots, hs: seq<Int64>, n: nat, k: Any): (p: int)
    requires n <= |hs| && forall h | h in hs :: h in snaps
    ensures -1 <= p < n
    ensures p >= 0 ==> Setter(snaps[hs[p]], k) >= 0
    ensures forall q | p < q < n && q >= 0 :: Setter(snaps[hs[q]], k) < 0
  {
    if n == 0 then -1
    else if Setter(snaps[hs[n - 1]], k) >= 0 then n - 1
    else LastHeight(snaps, hs, n - 1, k)
  }

  lemma {:induction false} FoldFirstAt(snaps: Snapshots, hs: seq<Int64>, n: nat, k: Any)
    requires n <= |hs| && forall h | h in hs :: h in snaps
    ensures var p := LastHeight(snaps, hs, n, k);
      var r := FoldFirst(snaps, hs, n);
      if p < 0 then k !in r else
        k in r && Some(r[k]) ==
        ValueOf(Decode(snaps[hs[p]])[Setter(snaps[hs[p]], k)].value)
  {
    if n > 0 {
      FoldFirstAt(snaps, hs, n - 1, k);
      var snap := Decode(snaps[hs[n - 1]]);
      ApplyFirstAt(FoldFirst(snaps, hs, n - 1), snap, |snap|, k);
    }
  }

  lemma LastHeightIsLatest(snaps: Snapshots, hs: seq<Int64>, n: nat, k: Any)
    requires n <= |hs| && (forall h | h in hs :: h in snaps) && NonDecreasing(hs)
    requires forall h | h in snaps :: h in hs[..n]
    requires LastHeight(snaps, hs, n, k) >= 0
    ensures var h := hs[LastHeight(snaps, hs, n, k)];
      IsLatest(snaps, k, h, Setter(snaps[h], k))
  {
    hide Sets, Silent, Setter, LastHeight;
    var p := LastHeight(snaps, hs, n, k);
    forall g | g in snaps && g > hs[p] ensures Silent(snaps[g], k) {
      var q :| 0 <= q < n && hs[..n][q] == g;
      assert hs[q] == g;
      assert p < q;
    }
  }

  lemma FoldFound(snaps: Snapshots, hs: seq<Int64>, k: Any) returns (h: Int64, i: int)
    requires (forall h | h in snaps :: h in hs) && (forall h | h in hs :: h in snaps)
    requires NonDecreasing(hs)
    requires LastHeight(snaps, hs, |hs|, k) >= 0
    ensures IsLatest(snaps, k, h, i)
    ensures k in FoldFirst(snaps, hs, |hs|)
    ensures ValueOf(Decode(snaps[h])[i].value) == Some(FoldFirst(snaps, hs, |hs|)[k])
  {
    assert hs[..|hs|] == hs;
    FoldFirstAt(snaps, hs, |hs|, k);
    LastHeightIsLatest(snaps, hs, |hs|, k);
    h := hs[LastHeight(snaps, hs, |hs|, k)];
    i := Setter(snaps[h], k);
  }

  lemma FoldMissing(snaps: Snapshots, hs: seq<Int64>, k: Any)
    requires (forall h | h in snaps :: h in hs) && (forall h | h in hs :: h in snaps)
    requires LastHeight(snaps, hs, |hs|, k) < 0
    ensures k !in FoldFirst(snaps, hs, |hs|)
    ensures forall h, i :: !IsLatest(snaps, k, h, i)
  {
    FoldFirstAt(snaps, hs, |hs|, k);
  }

  /** Folding all snapshots in ascending height order leaves exactly the answers, beside the
      keys whose latest value is null. */
  lemma FoldAnswers(snaps: Snapshots, hs: seq<Int64>, k: Any, v: Any)
    requires (forall h | h in snaps :: h in hs) && (forall h | h in hs :: h in snaps)
    requires NonDecreasing(hs)
    ensures var r := FoldFirst(snaps, hs, |hs|);
      (k in r && r[k] == v && v != Nil) <==> Answers(snaps, k, v)
  {
    hide FoldFirst, LastHeight, NonDecreasing;
    if LastHeight(snaps, hs, |hs|, k) < 0 {
      FoldMissing(snaps, hs, k);
    } else {
      var h, i := FoldFound(snaps, hs, k);
      var r := FoldFirst(snaps, hs, |hs|)[k];
      assert HasLatest(snaps, k, h, i, r);
      if v != Nil && Answers(snaps, k, v) {
        var g, j :| HasLatest(snaps, k, g, j, v);
        LatestPositionUnique(snaps, k, h, i, g, j);
      }
    }
  }

  /** Stopping the loop at the first height above t folds exactly the snapshots up to t. */
  lemma {:induction false} FoldStopped(snaps: Snapshots, hs: seq<Int64>, n: nat, t: int, m: nat)
    requires m <= n <= |hs| && (forall h | h in hs :: h in snaps)
    requires forall p | 0 <= p < n :: hs[p] <= t
    ensures forall h | h in hs[..n] :: h in UpTo(snaps, t)
    ensures FoldFirst(snaps, hs, m) == FoldFirst(UpTo(snaps, t), hs[..n], m)
  {
    if m > 0 {
      FoldStopped(snaps, hs, n, t, m - 1);
    }
  }

  /** The rebuilt map only ever holds unsigned integers and strings, or null as a value. */
  ghost predicate ScalarMap(m: map<Any, Any>) {
    forall k | k in m :: IsScalar(k) && (IsScalar(m[k]) || m[k] == Nil)
  }

  lemma {:induction false} ApplyScalar(m: map<Any, Any>, snap: Snapshot, n: nat)
    requires n <= |snap| && ScalarMap(m)
    ensures ScalarMap(ApplyFirst(m, snap, n))
  {
    if n > 0 {
      ApplyScalar(m, snap, n - 1);
    }
  }

  lemma {:induction false} FoldScalar(snaps: Snapshots, hs: seq<Int64>, n: nat)
    requires n <= |hs| && forall h | h in hs :: h in snaps
    ensures ScalarMap(FoldFirst(snaps, hs, n))
  {
    if n > 0 {
      FoldScalar(snaps, hs, n - 1);
      var snap := Decode(snaps[hs[n - 1]]);
      ApplyScalar(FoldFirst(snaps, hs, n - 1), snap, |snap|);
    }
  }
}
