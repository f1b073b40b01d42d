/** The grammar of the search-filter and exclusion flags: filters separated by ";;;", the terms of a
    filter by ";". */
module Filters {
  import opened Decimal
  import opened GoStrings

  datatype SearchFilter = SearchFilter(name: string, terms: seq<string>)

  datatype Excluded = Excluded(name: string, scid: string, reason: string)

  lemma SplitWithout(s: string, sep: string)
    requires sep != "" && !Contains(s, sep)
    ensures Split(s, sep) == [s]
  {
  }

  /** The added filters are these lists of terms, numbered from 0, behind what was there. */
  ghost predicate Added(before: seq<SearchFilter>, after: seq<SearchFilter>, filters: seq<seq<string>>) {
    |after| == |before| + |filters| && after[..|before|] == before &&
    forall i | 0 <= i < |filters| ::
      after[|before| + i].name == "Filter " + FormatInt(i) && after[|before| + i].terms == filters[i]
  }

  ghost predicate Excludes(before: seq<Excluded>, after: seq<Excluded>, scids: seq<string>) {
    |after| == |before| + |scids| && after[..|before|] == before &&
    forall i | 0 <= i < |scids| :: IsExclusion(after[|before| + i], i, scids[i])
  }

  predicate IsExclusion(e: Excluded, i: nat, scid: string) {
    e.name == "Exclusion " + FormatInt(i) && e.scid == scid && e.reason == "exclusion flag"
  }

  lemma NothingAdded(before: seq<SearchFilter>)
    ensures Added(before, before, [])
  {
  }

  lemma OneMoreAdded(before: seq<SearchFilter>, after: seq<SearchFilter>, filters: seq<seq<string>>, i: nat)
    requires i < |filters| && Added(before, after, filters[..i])
    ensures Added(before, after + [SearchFilter("Filter " + FormatInt(i), filters[i])], filters[..i + 1])
  {
    hide FormatInt;
    var e := SearchFilter("Filter " + FormatInt(i), filters[i]);
    var r := after + [e];
    assert r[|before| + i] == e && r[..|before|] == after[..|before|];
    forall k | 0 <= k < i ensures r[|before| + k] == after[|before| + k] && filters[..i + 1][k] == filters[..i][k] {
    }
  }

  lemma NothingExcluded(before: seq<Excluded>)
    ensures Excludes(before, before, [])
  {
  }

  lemma OneMoreExcluded(before: seq<Excluded>, after: seq<Excluded>, scids: seq<string>, i: nat)
    requires i < |scids| && Excludes(before, after, scids[..i])
    ensures Excludes(
      before, after + [Excluded("Exclusion " + FormatInt(i), scids[i], "exclusion flag")], scids[..i + 1])
  {
    hide FormatInt;
    assert IsExclusion(Excluded("Exclusion " + FormatInt(i), scids[i], "exclusion flag"), i, scids[i]);
    hide IsExclusion;
    var e := Excluded("Exclusion " + FormatInt(i), scids[i], "exclusion flag");
    var r := after + [e];
    assert r[|before| + i] == e && r[..|before|] == after[..|before|];
    forall k | 0 <= k < i ensures r[|before| + k] == after[|before| + k] && scids[..i + 1][k] == scids[..i][k] {
    }
  }

  /** One nested split. */
  function NestedSplit(search: string): (r: seq<seq<string>>)
    ensures |r| == |Split(search, ";;;")|
    ensures forall i | 0 <= i < |r| :: r[i] == Split(Split(search, ";;;")[i], ";")
  {
    var filters := Split(search, ";;;");
    seq(|filters|, i requires 0 <= i < |filters| => Split(filters[i], ";"))
  }

  lemma AddedIs(before: seq<SearchFilter>, after: seq<SearchFilter>, search: string)
    requires Added(before, after, NestedSplit(search))
    ensures |after| == |before| + |Split(search, ";;;")| && after[..|before|] == before &&
      forall i | 0 <= i < |Split(search, ";;;")| ::
        after[|before| + i].name == "Filter " + FormatInt(i) &&
        after[|before| + i].terms == Split(Split(search, ";;;")[i], ";")
  {
    hide Split, FormatInt, NestedSplit;
  }

  /** A printed list of filters is read back. */
  lemma PrintedAdded(
    before: seq<SearchFilter>, after: seq<SearchFilter>, search: string, filters: seq<seq<string>>)
    requires search != "" ==> Added(before, after, NestedSplit(search))
    requires ArePrintable(filters) && search == Join(JoinEach(filters, ";"), ";;;")
    ensures Added(before, after, filters)
  {
    hide Split, Join, JoinEach, Added, ArePrintable, NestedSplit;
    RoundTrip(filters);
    assert NestedSplit(search) == filters;
  }

  /** The globals that the set-up appends to. */
  class Backend {
    var indices: seq<SearchFilter>
    var excludes: seq<Excluded>

    constructor ()
      ensures indices == [] && excludes == []
    {
      indices, excludes := [], [];
    }

    method Action(i: nat, terms: seq<string>)
      modifies this`indices
      ensures indices == old(indices) + [SearchFilter("Filter " + FormatInt(i), terms)]
    {
      indices := indices + [SearchFilter("Filter " + FormatInt(i), terms)];
    }

    method Callback(i: nat, filter: string)
      modifies this`indices
      ensures indices == old(indices) + [SearchFilter("Filter " + FormatInt(i), Split(filter, ";"))]
    {
      if Contains(filter, ";") {
        Action(i, Split(filter, ";"));
      } else {
        SplitWithout(filter, ";");
        Action(i, [filter]);
      }
    }

    /** The branches on the search flag; an empty flag leaves the indices to the configuration. For every
        other flag text they append one nested split; so a printed list of filters is read back. */
    method SetUpSearch(searchFilter: string)
      modifies this`indices
      ensures searchFilter == "" ==> indices == old(indices)
      ensures searchFilter != "" ==>
        |indices| == |old(indices)| + |Split(searchFilter, ";;;")| && indices[..|old(indices)|] == old(indices) &&
        forall i | 0 <= i < |Split(searchFilter, ";;;")| ::
          indices[|old(indices)| + i].name == "Filter " + FormatInt(i) &&
          indices[|old(indices)| + i].terms == Split(Split(searchFilter, ";;;")[i], ";")
      ensures forall filters | ArePrintable(filters) && searchFilter == Join(JoinEach(filters, ";"), ";;;") ::
        Added(old(indices), indices, filters)
    {
      hide Split, Contains, FormatInt, ArePrintable, Join, JoinEach, Added, NestedSplit;
      NothingAdded(indices);
      assert NestedSplit(searchFilter)[..0] == [];
      if searchFilter != "" {
        if Contains(searchFilter, ";;;") {
          var filters := Split(searchFilter, ";;;");
          for i := 0 to |filters|
            invariant Added(old(indices), indices, NestedSplit(searchFilter)[..i])
          {
            OneMoreAdded(old(indices), indices, NestedSplit(searchFilter), i);
            Callback(i, filters[i]);
          }
          assert NestedSplit(searchFilter)[..|filters|] == NestedSplit(searchFilter);
        } else {
          SplitWithout(searchFilter, ";;;");
          OneMoreAdded(indices, indices, NestedSplit(searchFilter), 0);
          Callback(0, searchFilter);
          assert NestedSplit(searchFilter)[..1] == NestedSplit(searchFilter);
        }
        AddedIs(old(indices), indices, searchFilter);
      }
      forall filters | ArePrintable(filters) && searchFilter == Join(JoinEach(filters, ";"), ";;;")
        ensures Added(old(indices), indices, filters)
      {
        PrintedAdded(old(indices), indices, searchFilter, filters);
      }
    }

    /** The branches on the exclusion flag. */
    method SetUpExclusions(exclusions: string)
      modifies this`excludes
      ensures exclusions == "" ==> excludes == old(excludes)
      ensures exclusions != "" ==> Excludes(old(excludes), excludes, Split(exclusions, ";;;"))
      ensures forall ids | AreTerms(ids) && exclusions == Join(ids, ";;;") :: Excludes(old(excludes), excludes, ids)
    {
      hide Split, Contains, FormatInt, AreTerms, Join, Excludes;
      NothingExcluded(excludes);
      assert [exclusions][..0] == Split(exclusions, ";;;")[..0] == [];
      if exclusions != "" {
        if Contains(exclusions, ";;;") {
          var parts := Split(exclusions, ";;;");
          for i := 0 to |parts|
            invariant Excludes(old(excludes), excludes, parts[..i])
          {
            OneMoreExcluded(old(excludes), excludes, parts, i);
            excludes := excludes + [Excluded("Exclusion " + FormatInt(i), parts[i], "exclusion flag")];
          }
          assert parts[..|parts|] == parts;
        } else {
          SplitWithout(exclusions, ";;;");
          OneMoreExcluded(excludes, excludes, [exclusions], 0);
          excludes := excludes + [Excluded("Exclusion " + FormatInt(0), exclusions, "exclusion flag")];
          assert [exclusions][..1] == [exclusions];
        }
      }
      forall ids | AreTerms(ids) && exclusions == Join(ids, ";;;")
        ensures Excludes(old(excludes), excludes, ids)
      {
        IdsRoundTrip(ids);
      }
    }
  }

  // ---- Printing and parsing back ----

  /** A term a user can write: not empty, no semicolon. */
  predicate IsTerm(t: string) {
    t != "" && ';' !in t
  }

  predicate AreTerms(terms: seq<string>) {
    terms != [] && forall t | t in terms :: IsTerm(t)
  }

  predicate ArePrintable(filters: seq<seq<string>>) {
    filters != [] && forall f | f in filters :: AreTerms(f)
  }

  function JoinEach(lists: seq<seq<string>>, sep: string): (r: seq<string>)
    ensures |r| == |lists| && forall i | 0 <= i < |lists| :: r[i] == Join(lists[i], sep)
  {
    seq(|lists|, i requires 0 <= i < |lists| => Join(lists[i], sep))
  }

  /** No two neighbouring semicolons, none at either end. */
  predicate Tight(s: string) {
    s != "" && s[0] != ';' && s[|s| - 1] != ';' && forall i | 0 <= i < |s| - 1 :: !(s[i] == ';' && s[i + 1] == ';')
  }

  lemma {:induction false} PrintedFilterIsTight(terms: seq<string>)
    requires AreTerms(terms)
    ensures Tight(Join(terms, ";"))
  {
    var t := terms[0];
    assert t in terms;
    assert t[0] in t && t[|t| - 1] in t;
    assert forall i | 0 <= i < |t| :: t[i] in t;
    if |terms| > 1 {
      var rest := Join(terms[1..], ";");
      PrintedFilterIsTight(terms[1..]);
      var s := t + ";" + rest;
      forall i | 0 <= i < |s| - 1 ensures !(s[i] == ';' && s[i + 1] == ';') {
        if i > |t| {
          assert s[i] == rest[i - |t| - 1] && s[i + 1] == rest[i - |t|];
        }
      }
    }
  }

  /** The filter separator is not found inside or across the end of a tight text. */
  lemma TightIsSeparable(s: string)
    requires Tight(s)
    ensures Separable(s, ";;;")
  {
    var whole := s + ";;;";
    assert whole[|s|..|s| + 3] == ";;;";
    IndexIsFirst(whole, ";;;", |s|);
    var i := Index(whole, ";;;");
    assert whole[i] == whole[i..i + 3][0] == ';' && whole[i + 1] == whole[i..i + 3][1] == ';';
    SeparatorNotInside(s);
  }

  lemma NoSeparatorAt(s: string, i: int)
    requires Tight(s)
    ensures !OccursAt(s, ";;;", i)
  {
    if 0 <= i && i + 3 <= |s| {
      assert s[i..i + 3][0] == s[i];
      assert s[i..i + 3][1] == s[i + 1];
    }
  }

  lemma SeparatorNotInside(s: string)
    requires Tight(s)
    ensures !Contains(s, ";;;")
  {
    hide Tight, OccursAt;
    forall i ensures !OccursAt(s, ";;;", i) {
      NoSeparatorAt(s, i);
    }
    ContainsIff(s, ";;;");
  }

  /** Filters printed with ";" and ";;;" and split again are the same lists in the same order. */
  lemma RoundTrip(filters: seq<seq<string>>)
    requires ArePrintable(filters)
    ensures var text := Join(JoinEach(filters, ";"), ";;;");
      text != "" && |Split(text, ";;;")| == |filters| &&
      forall i | 0 <= i < |filters| :: Split(Split(text, ";;;")[i], ";") == filters[i]
  {
    hide Split, Tight, JoinEach;
    var printed := JoinEach(filters, ";");
    forall p | p in printed ensures Separable(p, ";;;") && p != "" {
      var i :| 0 <= i < |printed| && printed[i] == p;
      assert filters[i] in filters;
      PrintedFilterIsTight(filters[i]);
      TightIsSeparable(p);
      TightNotEmpty(p);
    }
    SplitOfJoin(printed, ";;;");
    forall i | 0 <= i < |filters| ensures Split(printed[i], ";") == filters[i] {
      assert filters[i] in filters;
      forall t | t in filters[i] ensures Separable(t, ";") {
        SeparableChar(t, ';');
      }
      SplitOfJoin(filters[i], ";");
    }
    assert printed[0] in printed;
  }

  lemma TightNotEmpty(s: string)
    requires Tight(s)
    ensures s != ""
  {
  }

  lemma TermIsTight(t: string)
    requires IsTerm(t)
    ensures Tight(t)
  {
    assert t[0] in t && t[|t| - 1] in t;
    assert forall i | 0 <= i < |t| :: t[i] in t;
  }

  lemma IdsRoundTrip(ids: seq<string>)
    requires AreTerms(ids)
    ensures Join(ids, ";;;") != "" && Split(Join(ids, ";;;"), ";;;") == ids
  {
    hide Split, Tight, IsTerm;
    forall t | t in ids ensures Separable(t, ";;;") && t != "" {
      TermIsTight(t);
      TightIsSeparable(t);
      TightNotEmpty(t);
    }
    assert ids[0] in ids;
    SplitOfJoin(ids, ";;;");
  }
}
