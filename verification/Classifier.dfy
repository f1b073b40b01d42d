/** How a contract gets its class and its tags: two nested searches over the indices, which must
    agree, the fixed renamings, and the tags stored as one text. */
module Classifier {
  import opened GoStrings
  import opened Records
  import opened FlatStore
  import opened Interleaving
  import opened Installs
  import opened Views
  import opened Filters

  const NAMESERVICE := "0000000000000000000000000000000000000000000000000000000000000001"
  const MAINNET_GNOMON_SCID := "a05395bb0cf77adc850928b0db00eb5ca7a9ccbafd9a38d021c8d299ad5ce1a4"

  // ---- The class loop ----

  /** Term j of index i occurs in the code. */
  predicate Matches(indices: seq<SearchFilter>, code: string, i: int, j: int) {
    0 <= i < |indices| && 0 <= j < |indices[i].terms| && Contains(code, indices[i].terms[j])
  }

  /** The first term of the index, among the first n, that occurs in the code: the inner loop. */
  ghost predicate FirstMatch(indices: seq<SearchFilter>, code: string, i: int, j: int) {
    Matches(indices, code, i, j) && forall k | 0 <= k < j :: !Matches(indices, code, i, k)
  }

  /** Index i sets the class: its first matching term is not empty and no earlier index has one. */
  ghost predicate SetsClass(indices: seq<SearchFilter>, code: string, i: int, j: int) {
    FirstMatch(indices, code, i, j) && indices[i].terms[j] != "" &&
    forall h, k | 0 <= h < i && FirstMatch(indices, code, h, k) :: indices[h].terms[k] == ""
  }

  /** The result of the class loop. */
  ghost predicate IsClass(indices: seq<SearchFilter>, code: string, class_: string) {
    if class_ != "" then exists i, j :: SetsClass(indices, code, i, j) && class_ == indices[i].terms[j]
    else forall i, j | FirstMatch(indices, code, i, j) :: indices[i].terms[j] == ""
  }

  method FindClass(indices: seq<SearchFilter>, code: string) returns (class_: string)
    ensures IsClass(indices, code, class_)
  {
    hide Contains;
    class_ := "";
    var i := 0;
    while i < |indices|
      invariant i <= |indices| && class_ == ""
      invariant forall h, k | 0 <= h < i && FirstMatch(indices, code, h, k) :: indices[h].terms[k] == ""
    {
      var filters := indices[i].terms;
      var j := 0;
      while j < |filters|
        invariant j <= |filters| && class_ == ""
        invariant forall k | 0 <= k < j :: !Matches(indices, code, i, k)
      {
        if !Contains(code, filters[j]) {
          j := j + 1;
          continue;
        }
        class_ := filters[j];
        break;
      }
      if j < |filters| {
        assert FirstMatch(indices, code, i, j);
      }
      if class_ != "" {
        assert SetsClass(indices, code, i, j);
        break;
      }
      i := i + 1;
    }
  }

  // ---- The tag loop ----

  /** The name of index i once for each of its first n terms that occurs in the code. */
  function TagsOfTerms(index: SearchFilter, code: string, n: nat): seq<string>
    requires n <= |index.terms|
  {
    if n == 0 then []
    else TagsOfTerms(index, code, n - 1) + (if Contains(code, index.terms[n - 1]) then [index.name] else [])
  }

  function TagsOf(indices: seq<SearchFilter>, code: string, n: nat): seq<string>
    requires n <= |indices|
  {
    if n == 0 then ["all"]
    else TagsOf(indices, code, n - 1) + TagsOfTerms(indices[n - 1], code, |indices[n - 1].terms|)
  }

  method FindTags(indices: seq<SearchFilter>, code: string) returns (tags: seq<string>)
    ensures tags == TagsOf(indices, code, |indices|)
  {
    hide Contains;
    tags := ["all"];
    for i := 0 to |indices|
      invariant tags == TagsOf(indices, code, i)
    {
      var filters := indices[i].terms;
      for j := 0 to |filters|
        invariant tags == TagsOf(indices, code, i) + TagsOfTerms(indices[i], code, j)
      {
        if !Contains(code, filters[j]) {
          continue;
        }
        tags := tags + [indices[i].name];
      }
    }
  }

  /** The matching pairs of index position and term position. */
  ghost function Pairs(indices: seq<SearchFilter>, code: string): set<(int, int)> {
    set i, j | 0 <= i < |indices| && 0 <= j < |indices[i].terms| && Matches(indices, code, i, j) :: (i, j)
  }

  ghost function PairsOfTerms(index: SearchFilter, code: string, i: int, n: nat): set<(int, int)>
    requires n <= |index.terms|
  {
    set j | 0 <= j < n && Contains(code, index.terms[j]) :: (i, j)
  }

  lemma {:induction false} TermTagsCounted(index: SearchFilter, code: string, i: int, n: nat)
    requires n <= |index.terms|
    ensures |TagsOfTerms(index, code, n)| == |PairsOfTerms(index, code, i, n)|
    ensures forall t | t in TagsOfTerms(index, code, n) :: t == index.name
  {
    hide Contains;
    if n > 0 {
      TermTagsCounted(index, code, i, n - 1);
      var before := PairsOfTerms(index, code, i, n - 1);
      assert (i, n - 1) !in before;
      if Contains(code, index.terms[n - 1]) {
        assert PairsOfTerms(index, code, i, n) == before + {(i, n - 1)};
      } else {
        assert PairsOfTerms(index, code, i, n) == before;
      }
    }
  }

  /** There is one tag beside "all" for every matching pair. */
  lemma {:induction false} TagsCounted(indices: seq<SearchFilter>, code: string, n: nat)
    requires n <= |indices|
    ensures |TagsOf(indices, code, n)| == 1 + |Pairs(indices[..n], code)|
  {
    hide Contains;
    if n == 0 {
      assert Pairs(indices[..0], code) == {};
    } else {
      hide Pairs, PairsOfTerms, TagsOfTerms;
      TagsCounted(indices, code, n - 1);
      var index := indices[n - 1];
      TermTagsCounted(index, code, n - 1, |index.terms|);
      var before, added := Pairs(indices[..n - 1], code), PairsOfTerms(index, code, n - 1, |index.terms|);
      PairsSplit(indices, code, n);
    }
  }

  lemma PairsSplit(indices: seq<SearchFilter>, code: string, n: nat)
    requires 0 < n <= |indices|
    ensures Pairs(indices[..n], code) ==
      Pairs(indices[..n - 1], code) + PairsOfTerms(indices[n - 1], code, n - 1, |indices[n - 1].terms|)
    ensures Pairs(indices[..n - 1], code) !! PairsOfTerms(indices[n - 1], code, n - 1, |indices[n - 1].terms|)
  {
    hide Contains;
    var all, before := Pairs(indices[..n], code), Pairs(indices[..n - 1], code);
    var added := PairsOfTerms(indices[n - 1], code, n - 1, |indices[n - 1].terms|);
    forall i, j ensures (i, j) in all <==> (i, j) in before + added {
      assert (i, j) in all <==> Matches(indices[..n], code, i, j);
      assert (i, j) in before <==> Matches(indices[..n - 1], code, i, j);
    }
  }

  /** The matching pairs whose index has this name. */
  ghost function PairsNamed(indices: seq<SearchFilter>, code: string, t: string): set<(int, int)> {
    set p | p in Pairs(indices, code) && 0 <= p.0 < |indices| && indices[p.0].name == t
  }

  lemma {:induction false} SameNames(xs: seq<string>, name: string, t: string)
    requires forall x | x in xs :: x == name
    ensures multiset(xs)[t] == if t == name then |xs| else 0
  {
    if xs != [] {
      assert xs == [xs[0]] + xs[1..];
      assert xs[0] in xs;
      assert forall x | x in xs[1..] :: x in xs;
      SameNames(xs[1..], name, t);
    }
  }

  /** Every tag occurs as often as there are matching pairs of an index with that name, "all" once more. */
  lemma {:induction false} TagMultiplicity(indices: seq<SearchFilter>, code: string, n: nat, t: string)
    requires n <= |indices|
    ensures multiset(TagsOf(indices, code, n))[t] ==
      (if t == "all" then 1 else 0) + |PairsNamed(indices[..n], code, t)|
  {
    hide Contains, TagsOfTerms, PairsOfTerms, Pairs;
    if n == 0 {
      assert Pairs(indices[..0], code) == {} by { NoPairs(indices[..0], code); }
      assert PairsNamed(indices[..0], code, t) == {};
    } else {
      var index := indices[n - 1];
      TagMultiplicity(indices, code, n - 1, t);
      TermTagsCounted(index, code, n - 1, |index.terms|);
      SameNames(TagsOfTerms(index, code, |index.terms|), index.name, t);
      PairsNamedSplit(indices, code, n, t);
    }
  }

  lemma NoPairs(indices: seq<SearchFilter>, code: string)
    requires indices == []
    ensures Pairs(indices, code) == {}
  {
  }

  lemma PairsNamedSplit(indices: seq<SearchFilter>, code: string, n: nat, t: string)
    requires 0 < n <= |indices|
    ensures var added := PairsOfTerms(indices[n - 1], code, n - 1, |indices[n - 1].terms|);
      |PairsNamed(indices[..n], code, t)| ==
        |PairsNamed(indices[..n - 1], code, t)| + if indices[n - 1].name == t then |added| else 0
  {
    hide Contains;
    PairsSplit(indices, code, n);
    var added := PairsOfTerms(indices[n - 1], code, n - 1, |indices[n - 1].terms|);
    var now, before := PairsNamed(indices[..n], code, t), PairsNamed(indices[..n - 1], code, t);
    hide Pairs;
    assert forall p | p in Pairs(indices[..n - 1], code) :: 0 <= p.0 < n - 1 by { PairRange(indices[..n - 1], code); }
    assert now == if indices[n - 1].name == t then before + added else before;
  }

  lemma PairRange(indices: seq<SearchFilter>, code: string)
    ensures forall p | p in Pairs(indices, code) :: 0 <= p.0 < |indices|
  {
  }

  /** Every index with a matching term has its name among the tags. */
  lemma {:induction false} MatchIsTagged(indices: seq<SearchFilter>, code: string, n: nat, i: int, j: int)
    requires n <= |indices| && i < n && Matches(indices, code, i, j)
    ensures indices[i].name in TagsOf(indices, code, n)
  {
    hide Contains, TagsOfTerms;
    if i < n - 1 {
      MatchIsTagged(indices, code, n - 1, i, j);
    } else {
      TermIsTagged(indices[i], code, |indices[i].terms|, j);
    }
  }

  lemma {:induction false} TermIsTagged(index: SearchFilter, code: string, n: nat, j: int)
    requires 0 <= j < n <= |index.terms| && Contains(code, index.terms[j])
    ensures index.name in TagsOfTerms(index, code, n)
  {
    if j < n - 1 {
      TermIsTagged(index, code, n - 1, j);
    }
  }

  // ---- The loops agree ----

  ghost predicate AnyMatch(indices: seq<SearchFilter>, code: string) {
    exists i, j :: Matches(indices, code, i, j)
  }

  ghost predicate NonEmptyTerms(indices: seq<SearchFilter>) {
    forall i, j | 0 <= i < |indices| && 0 <= j < |indices[i].terms| :: indices[i].terms[j] != ""
  }

  lemma TaggedIff(indices: seq<SearchFilter>, code: string)
    ensures |TagsOf(indices, code, |indices|)| > 1 <==> AnyMatch(indices, code)
  {
    hide Contains, TagsOf;
    TagsCounted(indices, code, |indices|);
    assert indices[..|indices|] == indices;
    var pairs := Pairs(indices, code);
    if AnyMatch(indices, code) {
      var i, j :| Matches(indices, code, i, j);
      assert (i, j) in pairs;
    }
    if pairs != {} {
      var p :| p in pairs;
      assert Matches(indices, code, p.0, p.1);
    }
  }

  lemma {:induction false} FirstMatchExists(indices: seq<SearchFilter>, code: string, i: int, j: int) returns (k: int)
    requires Matches(indices, code, i, j)
    ensures 0 <= k <= j && FirstMatch(indices, code, i, k)
    decreases j
  {
    hide Contains;
    k := j;
    if l :| 0 <= l < j && Matches(indices, code, i, l) {
      k := FirstMatchExists(indices, code, i, l);
    }
  }

  /** The class is the lexicographically first matching term. */
  ghost predicate IsFirstMatchOverall(indices: seq<SearchFilter>, code: string, i: int, j: int) {
    Matches(indices, code, i, j) &&
    forall h, k | Matches(indices, code, h, k) :: i < h || (i == h && j <= k)
  }

  /** For non-empty terms: a class is found exactly when some tag beyond "all" is added; it is the first
      matching term in index order and the name of its index is among the tags. */
  lemma LoopsAgree(indices: seq<SearchFilter>, code: string, class_: string)
    requires NonEmptyTerms(indices) && IsClass(indices, code, class_)
    ensures class_ != "" <==> |TagsOf(indices, code, |indices|)| > 1
    ensures class_ != "" ==> exists i, j ::
      IsFirstMatchOverall(indices, code, i, j) && class_ == indices[i].terms[j] &&
      indices[i].name in TagsOf(indices, code, |indices|)
  {
    hide Contains, TagsOf;
    TaggedIff(indices, code);
    if class_ != "" {
      var i, j :| SetsClass(indices, code, i, j) && class_ == indices[i].terms[j];
      forall h, k | Matches(indices, code, h, k) ensures i < h || (i == h && j <= k) {
        var l := FirstMatchExists(indices, code, h, k);
      }
      MatchIsTagged(indices, code, |indices|, i, j);
      assert IsFirstMatchOverall(indices, code, i, j);
    } else if AnyMatch(indices, code) {
      var i, j :| Matches(indices, code, i, j);
      var k := FirstMatchExists(indices, code, i, j);
    }
  }

  /** For arbitrary terms, the empty one included: the loops disagree exactly when something matches
      and the first matching term of every matching index is empty. */
  lemma LoopsDisagreeIff(indices: seq<SearchFilter>, code: string, class_: string)
    requires IsClass(indices, code, class_)
    ensures (class_ != "" <==> |TagsOf(indices, code, |indices|)| > 1) <==>
      !(AnyMatch(indices, code) && forall i, j | FirstMatch(indices, code, i, j) :: indices[i].terms[j] == "")
  {
    hide Contains, TagsOf;
    TaggedIff(indices, code);
    if class_ != "" {
      var i, j :| SetsClass(indices, code, i, j) && class_ == indices[i].terms[j];
      assert AnyMatch(indices, code);
    }
  }

  // ---- What is queued for the store ----

  /** The renamings after the search. */
  function FinalClass(class_: string, scid: string): string {
    var named :=
      if scid == NAMESERVICE then "NAMESERVICE"
      else if scid == MAINNET_GNOMON_SCID then "GNOMONSC"
      else class_;
    if named == "" then "null"
    else if named == "docVersion" then "TELA-DOC-1"
    else if named == "telaVersion" then "TELA-INDEX-1"
    else named
  }

  datatype Classified = Skipped | Classified(className: string, tags: string)

  ghost predicate HasClass(indices: seq<SearchFilter>, code: string) {
    exists i, j :: SetsClass(indices, code, i, j)
  }

  /** The two contracts whose class does not come from a search. */
  predicate HasOwnClass(scid: string) {
    scid == NAMESERVICE || scid == MAINNET_GNOMON_SCID
  }

  /** Their ids, written out. */
  lemma OwnClassIds()
    ensures NAMESERVICE == "0000000000000000000000000000000000000000000000000000000000000001"
    ensures MAINNET_GNOMON_SCID == "a05395bb0cf77adc850928b0db00eb5ca7a9ccbafd9a38d021c8d299ad5ce1a4"
  {
  }

  /** What a class becomes: the two contracts with a class of their own, "null" for none, the two renamed
      terms, and every other term as it is. */
  lemma FinalClassIs(class_: string, scid: string)
    ensures scid == NAMESERVICE ==> FinalClass(class_, scid) == "NAMESERVICE"
    ensures scid == MAINNET_GNOMON_SCID ==> FinalClass(class_, scid) == "GNOMONSC"
    ensures !HasOwnClass(scid) ==> FinalClass(class_, scid) == Renamed(class_)
  {
    assert NAMESERVICE[63] == '1' && MAINNET_GNOMON_SCID[63] == '4';
    NotRenamed();
  }

  function Renamed(class_: string): string {
    if class_ == "" then "null"
    else if class_ == "docVersion" then "TELA-DOC-1"
    else if class_ == "telaVersion" then "TELA-INDEX-1"
    else class_
  }

  lemma NotRenamed()
    ensures Renamed("NAMESERVICE") == "NAMESERVICE" && Renamed("GNOMONSC") == "GNOMONSC"
  {
    assert "NAMESERVICE"[0] == 'N' && "GNOMONSC"[0] == 'G' && "docVersion"[0] == 'd' && "telaVersion"[0] == 't';
  }

  /** Only one term sets the class. */
  lemma SetsClassUnique(indices: seq<SearchFilter>, code: string, i: int, j: int, i': int, j': int)
    requires SetsClass(indices, code, i, j) && SetsClass(indices, code, i', j')
    ensures i == i' && j == j'
  {
    hide Contains;
  }

  /** The part of work_on_scids between the contract's code and the queue: a contract without a class is
      skipped only when a search filter was given. */
  method Classify(indices: seq<SearchFilter>, searchFilter: string, scid: string, code: string) returns (r: Classified)
    ensures r.Skipped? <==> searchFilter != "" && !HasClass(indices, code)
    ensures r.Classified? ==> r.tags == Join(Sort(TagsOf(indices, code, |indices|)), ",")
    ensures r.Classified? && scid == NAMESERVICE ==> r.className == "NAMESERVICE"
    ensures r.Classified? && scid == MAINNET_GNOMON_SCID ==> r.className == "GNOMONSC"
    ensures r.Classified? && !HasOwnClass(scid) && !HasClass(indices, code) ==> r.className == "null"
    ensures r.Classified? && !HasOwnClass(scid) ==>
      forall i, j | SetsClass(indices, code, i, j) ::
        r.className ==
          if indices[i].terms[j] == "docVersion" then "TELA-DOC-1"
          else if indices[i].terms[j] == "telaVersion" then "TELA-INDEX-1"
          else indices[i].terms[j]
  {
    hide Contains, TagsOf, Sort, Join, FinalClass;
    var class_ := FindClass(indices, code);
    assert class_ != "" <==> HasClass(indices, code);
    if searchFilter != "" && class_ == "" {
      return Skipped;
    }
    var tags := FindTags(indices, code);
    r := Classified(FinalClass(class_, scid), Join(Sort(tags), ","));
    hide HasOwnClass;
    FinalClassIs(class_, scid);
    forall i, j | SetsClass(indices, code, i, j) ensures indices[i].terms[j] == class_ {
      ClassIsTerm(indices, code, class_, i, j);
    }
  }

  lemma ClassIsTerm(indices: seq<SearchFilter>, code: string, class_: string, i: int, j: int)
    requires IsClass(indices, code, class_) && SetsClass(indices, code, i, j)
    ensures indices[i].terms[j] == class_ && class_ != ""
  {
    hide Contains;
    if class_ != "" {
      var i', j' :| SetsClass(indices, code, i', j') && class_ == indices[i'].terms[j'];
      SetsClassUnique(indices, code, i, j, i', j');
    }
  }

  // ---- The tags text ----

  lemma {:induction false} TagNames(indices: seq<SearchFilter>, code: string, n: nat, t: string)
    requires n <= |indices| && t in TagsOf(indices, code, n)
    ensures t == "all" || exists i | 0 <= i < n :: t == indices[i].name
  {
    hide Contains;
    if n > 0 {
      if t in TagsOf(indices, code, n - 1) {
        TagNames(indices, code, n - 1, t);
      } else {
        TermTagsCounted(indices[n - 1], code, 0, |indices[n - 1].terms|);
      }
    }
  }

  /** With names without a comma, the stored text splits back into the sorted tags. */
  lemma TagsSplitBack(indices: seq<SearchFilter>, code: string)
    requires forall i | 0 <= i < |indices| :: ',' !in indices[i].name
    ensures var tags := TagsOf(indices, code, |indices|);
      Split(Join(Sort(tags), ","), ",") == Sort(tags) && Ascending(Sort(tags)) && multiset(Sort(tags)) == multiset(tags)
  {
    hide Contains, TagsOf, Sort, Split, Join;
    var tags := TagsOf(indices, code, |indices|);
    SortAscending(tags);
    SameMultisetSameElements(Sort(tags), tags);
    StartsWithAll(indices, code, |indices|);
    forall t | t in Sort(tags) ensures Separable(t, ",") {
      TagNames(indices, code, |indices|, t);
      SeparableChar(t, ',');
    }
    assert Sort(tags) != [];
    SplitOfJoin(Sort(tags), ",");
  }

  lemma {:induction false} StartsWithAll(indices: seq<SearchFilter>, code: string, n: nat)
    requires n <= |indices|
    ensures TagsOf(indices, code, n) != [] && "all" in TagsOf(indices, code, n)
  {
    if n > 0 {
      StartsWithAll(indices, code, n - 1);
    }
  }

  /** What an install was classified with; the indices may differ from one start of the program to the
      next. */
  datatype Search = Search(indices: seq<SearchFilter>, code: string)

  function TagsFound(search: Search): seq<string> {
    TagsOf(search.indices, search.code, |search.indices|)
  }

  /** Each install of the run carries the tags text of its own search, and names have no comma. */
  ghost predicate Tagged(stages: seq<Stage>, searches: seq<Search>) {
    |searches| == |stages| &&
    forall i | 0 <= i < |stages| && stages[i].tx.kind == "install" :: TaggedBy(stages[i].tags, searches[i])
  }

  ghost predicate TaggedBy(tags: string, search: Search) {
    (forall i | 0 <= i < |search.indices| :: ',' !in search.indices[i].name) &&
    tags == Join(Sort(TagsFound(search)), ",")
  }

  function TagsBucket(db: DB): Bucket {
    BucketOf(db, "tags")
  }

  /** A run leaves under each contract the tags of its last install, or the older ones. */
  lemma TagsAfterRun(db0: DB, stages: seq<Stage>, k: string)
    requires AllAccepted(stages)
    ensures var before, after := TagsBucket(db0), TagsBucket(SerialRun(db0, stages));
      (NeverInstalled(stages, k) && (k in after <==> k in before) && (k in before ==> after[k] == before[k])) ||
      exists i :: LastInstall(stages, k, i) && k in after && after[k] == Bytes(stages[i].tags)
  {
    hide Accepted, SerialRun, NeverInstalled, LastInstall;
    InstallAfterRun(db0, stages, k);
  }

  lemma TextHasTag(tags: string, search: Search, t: string)
    requires TaggedBy(tags, search)
    ensures t in Split(tags, ",") <==> t in TagsFound(search)
  {
    hide TagsOf, Sort, Split, Join;
    TagsSplitBack(search.indices, search.code);
    SameMultisetSameElements(Sort(TagsFound(search)), TagsFound(search));
  }

  /** The tag was in use before the run, by a contract that the run does not install. */
  ghost predicate IsOlderTag(db0: DB, stages: seq<Stage>, t: string) {
    exists k :: k in TagsBucket(db0) && NeverInstalled(stages, k) && t in Split(TextIn(TagsBucket(db0)[k]), ",")
  }

  /** The last install of some contract in the run found the tag. */
  ghost predicate IsTagOfRun(stages: seq<Stage>, searches: seq<Search>, t: string)
    requires |searches| == |stages|
  {
    exists k, i :: LastInstall(stages, k, i) && t in TagsFound(searches[i])
  }

  /** After any run of classified stages, on any store, the tags in use, which GetAllTags returns, are
      those of the last install of each contract and the older ones of the other contracts. */
  lemma TagsInUse(db0: DB, stages: seq<Stage>, searches: seq<Search>, t: string)
    requires AllAccepted(stages) && Tagged(stages, searches)
    ensures IsTag(TagsBucket(SerialRun(db0, stages)), t) <==>
      IsOlderTag(db0, stages, t) || IsTagOfRun(stages, searches, t)
  {
    hide TagsOf, Sort, Split, Join, Contains, TagsBucket, SerialRun, Accepted, NeverInstalled, TaggedBy;
    var after := TagsBucket(SerialRun(db0, stages));
    if k :| k in after && t in Split(TextIn(after[k]), ",") {
      TagsAfterRun(db0, stages, k);
      if i :| LastInstall(stages, k, i) && after[k] == Bytes(stages[i].tags) {
        TextHasTag(stages[i].tags, searches[i], t);
      }
    }
    if IsOlderTag(db0, stages, t) {
      var k :| k in TagsBucket(db0) && NeverInstalled(stages, k) && t in Split(TextIn(TagsBucket(db0)[k]), ",");
      TagsAfterRun(db0, stages, k);
      if i :| LastInstall(stages, k, i) { LastInstallUnique(stages, k, i, i); }
      assert k in after && t in Split(TextIn(after[k]), ",");
    }
    if k, i :| LastInstall(stages, k, i) && t in TagsFound(searches[i]) {
      TagsAfterRun(db0, stages, k);
      LastInstallUnique(stages, k, i, i);
      var j :| LastInstall(stages, k, j) && k in after && after[k] == Bytes(stages[j].tags);
      LastInstallUnique(stages, k, i, j);
      TextHasTag(stages[i].tags, searches[i], t);
      assert k in after && t in Split(TextIn(after[k]), ",");
    }
  }
}
