/** What a reader gets, told from the entries as they were stored: which stored entry decides a key, and
    what its value comes back as. */
module StoredVariables {
  import opened Wrappers
  import opened Decimal
  import opened Float64
  import opened Variables

  /** Entry i of the snapshot at height h has a key of this kind and a value that is not a boolean, an
      array or an object, and no later entry has both. */
  ghost predicate Decides(snaps: Snapshots, isKey: Any -> bool, h: Int64, i: int) {
    h in snaps && 0 <= i < |snaps[h]| && IsEntry(snaps[h][i], isKey) &&
    (forall j | i < j < |snaps[h]| :: !IsEntry(snaps[h][j], isKey)) &&
    forall g, j | g in snaps && g > h && 0 <= j < |snaps[g]| :: !IsEntry(snaps[g][j], isKey)
  }

  predicate IsEntry(e: Variable, isKey: Any -> bool) {
    isKey(e.key) && !e.value.Boolean? && !e.value.Other?
  }

  /** The keys read back as the text k: only that text. */
  function TextKey(k: string): Any -> bool {
    (key: Any) => key == Text(k)
  }

  /** The keys read back as the number q: the numbers that round to it. */
  function NumberKey(q: Uint64): Any -> bool {
    (key: Any) => (key.Uint? && Round(key.n) == q) || (key.Float? && Round(key.f) == q)
  }

  /** Below 2^53 that is the number itself. */
  lemma SmallNumberKey(q: Uint64, key: Any)
    requires q < TWO_53
    ensures NumberKey(q)(key) <==> key == Uint(q) || key == Float(q)
  {
    if key.Uint? { OnlyItself(key.n, q); }
    if key.Float? { OnlyItself(key.f, q); }
  }

  /** What a reader sees under key k when this stored value decides it. */
  ghost predicate ReadAs(snaps: Snapshots, k: Any, stored: Any) {
    match stored
    case Text(s) => forall v :: Answers(snaps, k, v) <==> v == Text(s)
    case Nil => forall v :: !Answers(snaps, k, v)
    case Uint(n) => NumberReadAs(snaps, k, n)
    case Float(f) => NumberReadAs(snaps, k, f)
    case _ => true
  }

  /** A number comes back rounded; as itself up to 2^53; as whatever the machine makes of 2^64 and more. */
  ghost predicate NumberReadAs(snaps: Snapshots, k: Any, n: nat) {
    (n <= TWO_53 ==> forall v :: Answers(snaps, k, v) <==> v == Uint(n)) &&
    (Round(n) < TWO_64 ==> forall v :: Answers(snaps, k, v) <==> v == Uint(Round(n))) &&
    (Round(n) >= TWO_64 ==> forall v :: Answers(snaps, k, v) <==> v == Uint(OUT_OF_RANGE))
  }

  lemma TextKeyIs(k: string, key: Any)
    ensures TextKey(k)(key) <==> KeyOf(Reread(key)) == Some(Text(k))
  {
  }

  lemma NumberKeyIs(q: Uint64, key: Any)
    requires q != OUT_OF_RANGE
    ensures NumberKey(q)(key) <==> KeyOf(Reread(key)) == Some(Uint(q))
  {
  }

  lemma SupportedIs(value: Any)
    ensures ValueOf(Reread(value)).Some? <==> !value.Boolean? && !value.Other?
  {
  }

  lemma DecidesIsLatest(snaps: Snapshots, isKey: Any -> bool, k: Any, h: Int64, i: int)
    requires Decides(snaps, isKey, h, i) && forall key :: isKey(key) <==> KeyOf(Reread(key)) == Some(k)
    ensures IsLatest(snaps, k, h, i)
  {
    hide KeyOf, ValueOf, Reread;
    forall e: Variable ensures Sets(Variable(Reread(e.key), Reread(e.value)), k) <==> IsEntry(e, isKey) {
      SupportedIs(e.value);
    }
    forall g | g in snaps && g > h ensures Silent(snaps[g], k) {
      forall j | 0 <= j < |snaps[g]| ensures !Sets(Decode(snaps[g])[j], k) {
        assert !IsEntry(snaps[g][j], isKey);
      }
    }
  }

  lemma DecidedReadAs(snaps: Snapshots, isKey: Any -> bool, k: Any, h: Int64, i: int)
    requires Decides(snaps, isKey, h, i) && forall key :: isKey(key) <==> KeyOf(Reread(key)) == Some(k)
    ensures ReadAs(snaps, k, snaps[h][i].value)
  {
    DecidesIsLatest(snaps, isKey, k, h, i);
    LatestReadAs(snaps, k, h, i);
  }

  lemma LatestReadAs(snaps: Snapshots, k: Any, h: Int64, i: int)
    requires IsLatest(snaps, k, h, i)
    ensures ReadAs(snaps, k, snaps[h][i].value)
  {
    var stored := snaps[h][i].value;
    var v := ValueOf(Reread(stored)).value;
    hide IsLatest, Round;
    assert HasLatest(snaps, k, h, i, v);
    forall w ensures Answers(snaps, k, w) <==> w == v != Nil {
      OnlyLatestAnswers(snaps, k, h, i, v, w);
    }
    if stored.Uint? && stored.n <= TWO_53 { RoundExact(stored.n); }
    if stored.Float? && stored.f <= TWO_53 { RoundExact(stored.f); }
  }

  /** The stored entry that decides a text key, and what the reader sees for it: a string as it is, null as
      nothing, a number rounded. */
  lemma TextKeyReadAs(snaps: Snapshots, k: string, h: Int64, i: int)
    requires Decides(snaps, TextKey(k), h, i)
    ensures ReadAs(snaps, Text(k), snaps[h][i].value)
  {
    forall key ensures TextKey(k)(key) <==> KeyOf(Reread(key)) == Some(Text(k)) {
      TextKeyIs(k, key);
    }
    hide TextKey;
    DecidedReadAs(snaps, TextKey(k), Text(k), h, i);
  }

  /** The same for a number. */
  lemma NumberKeyReadAs(snaps: Snapshots, q: Uint64, h: Int64, i: int)
    requires Decides(snaps, NumberKey(q), h, i) && q != OUT_OF_RANGE
    ensures ReadAs(snaps, Uint(q), snaps[h][i].value)
  {
    forall key ensures NumberKey(q)(key) <==> KeyOf(Reread(key)) == Some(Uint(q)) {
      NumberKeyIs(q, key);
    }
    hide NumberKey;
    DecidedReadAs(snaps, NumberKey(q), Uint(q), h, i);
  }

  ghost predicate Undecided(snaps: Snapshots, isKey: Any -> bool) {
    forall g, j | g in snaps && 0 <= j < |snaps[g]| :: !IsEntry(snaps[g][j], isKey)
  }

  /** A key without such an entry has no answer: entries whose value is a boolean, an array or an object
      never count. */
  lemma UndecidedUnanswered(snaps: Snapshots, k: string, q: Uint64, v: Any)
    ensures Undecided(snaps, TextKey(k)) ==> !Answers(snaps, Text(k), v)
    ensures Undecided(snaps, NumberKey(q)) && q != OUT_OF_RANGE ==> !Answers(snaps, Uint(q), v)
  {
    if Answers(snaps, Text(k), v) {
      var h, i :| HasLatest(snaps, Text(k), h, i, v);
      TextKeyIs(k, snaps[h][i].key);
      SupportedIs(snaps[h][i].value);
      assert IsEntry(snaps[h][i], TextKey(k));
    }
    if Answers(snaps, Uint(q), v) && q != OUT_OF_RANGE {
      var h, i :| HasLatest(snaps, Uint(q), h, i, v);
      NumberKeyIs(q, snaps[h][i].key);
      SupportedIs(snaps[h][i].value);
      assert IsEntry(snaps[h][i], NumberKey(q));
    }
  }
}
