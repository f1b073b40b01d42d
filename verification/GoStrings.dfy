/** Go's strings package as the repository uses it: Contains, Split and Join, the byte order
    in which a bucket cursor walks its keys, and slices.Sort on strings. */
module GoStrings {

  /** Position of the first occurrence of `sub` in `s`, or -1. */
  function Index(s: string, sub: string): (i: int)
    ensures -1 <= i <= |s|
    ensures i >= 0 ==> i + |sub| <= |s| && s[i..i + |sub|] == sub
  {
    if sub <= s then 0
    else if s == "" then -1
    else
      var i := Index(s[1..], sub);
      if i < 0 then -1 else i + 1
  }

  ghost predicate OccursAt(s: string, sub: string, i: int) {
    0 <= i && i + |sub| <= |s| && s[i..i + |sub|] == sub
  }

  /** strings.Contains */
  predicate Contains(s: string, sub: string) {
    Index(s, sub) >= 0
  }

  lemma {:induction false} IndexIsFirst(s: string, sub: string, i: int)
    requires OccursAt(s, sub, i)
    ensures 0 <= Index(s, sub) <= i
  {
    assert i == 0 ==> s[..|sub|] == s[i..i + |sub|];
    assert s[..|sub|] == sub <==> sub <= s;
    if !(sub <= s) {
      assert i > 0;
      assert s[1..][i - 1..i - 1 + |sub|] == sub;
      IndexIsFirst(s[1..], sub, i - 1);
    }
  }

  /** Contains holds exactly when the text occurs somewhere. */
  lemma ContainsIff(s: string, sub: string)
    ensures Contains(s, sub) <==> exists i :: OccursAt(s, sub, i)
  {
    if Contains(s, sub) {
      assert OccursAt(s, sub, Index(s, sub));
    }
    if i :| OccursAt(s, sub, i) {
      IndexIsFirst(s, sub, i);
    }
  }

  /** strings.Split for a non-empty separator: cut at the leftmost occurrence, repeatedly. */
  function Split(s: string, sep: string): (parts: seq<string>)
    requires sep != ""
    ensures parts != []
    decreases |s|
  {
    var i := Index(s, sep);
    if i < 0 then [s] else [s[..i]] + Split(s[i + |sep|..], sep)
  }

  /** Split cuts at the first place where the separator occurs, and again in what follows it; a text
      without the separator is one piece. */
  lemma SplitAtFirst(s: string, sep: string, i: int)
    requires sep != ""
    ensures (forall j :: !OccursAt(s, sep, j)) ==> Split(s, sep) == [s]
    ensures OccursAt(s, sep, i) && (forall j | j < i :: !OccursAt(s, sep, j)) ==>
      Split(s, sep) == [s[..i]] + Split(s[i + |sep|..], sep)
  {
    hide Index;
    if Index(s, sep) >= 0 {
      assert OccursAt(s, sep, Index(s, sep));
    }
    if OccursAt(s, sep, i) {
      IndexIsFirst(s, sep, i);
    }
  }

  /** strings.Join */
  function Join(parts: seq<string>, sep: string): string {
    if parts == [] then ""
    else if |parts| == 1 then parts[0]
    else parts[0] + sep + Join(parts[1..], sep)
  }

  /** Joining the pieces of a split gives the text back. */
  lemma {:induction false} JoinOfSplit(s: string, sep: string)
    requires sep != ""
    ensures Join(Split(s, sep), sep) == s
    decreases |s|
  {
    hide Index, Join;
    var i := Index(s, sep);
    if i >= 0 {
      var rest := s[i + |sep|..];
      JoinOfSplit(rest, sep);
      JoinFirst(s[..i], Split(rest, sep), sep);
      assert s == s[..i] + s[i..i + |sep|] + rest;
    } else {
      JoinOne(s, sep);
    }
  }

  lemma JoinFirst(part: string, rest: seq<string>, sep: string)
    requires rest != []
    ensures Join([part] + rest, sep) == part + sep + Join(rest, sep)
  {
    assert ([part] + rest)[1..] == rest;
  }

  lemma JoinOne(part: string, sep: string)
    ensures Join([part], sep) == part
  {
  }

  /** `part` is found intact in front of a separator and holds no separator itself. */
  predicate Separable(part: string, sep: string) {
    Index(part + sep, sep) == |part| && !Contains(part, sep)
  }

  lemma IndexBeforeSeparator(part: string, sep: string, rest: string)
    requires sep != "" && Separable(part, sep)
    ensures Index(part + sep + rest, sep) == |part|
  {
    var s := part + sep + rest;
    assert s[|part|..|part| + |sep|] == sep;
    IndexIsFirst(s, sep, |part|);
    var i := Index(s, sep);
    assert (part + sep)[i..i + |sep|] == s[i..i + |sep|];
    IndexIsFirst(part + sep, sep, i);
  }

  lemma SplitFirst(part: string, sep: string, rest: string)
    requires sep != "" && Separable(part, sep)
    ensures Split(part + sep + rest, sep) == [part] + Split(rest, sep)
  {
    IndexBeforeSeparator(part, sep, rest);
    var s := part + sep + rest;
    assert s[..|part|] == part;
    assert s[|part| + |sep|..] == rest;
  }

  lemma SplitLast(part: string, sep: string)
    requires sep != "" && Separable(part, sep)
    ensures Split(part, sep) == [part]
  {
  }

  /** Splitting what was joined gives the parts back. */
  lemma {:induction false} SplitOfJoin(parts: seq<string>, sep: string)
    requires sep != "" && parts != []
    requires forall p | p in parts :: Separable(p, sep)
    ensures Split(Join(parts, sep), sep) == parts
  {
    hide Split, Join, Separable;
    assert parts[0] in parts;
    if |parts| > 1 {
      assert parts == [parts[0]] + parts[1..];
      SplitOfJoin(parts[1..], sep);
      JoinFirst(parts[0], parts[1..], sep);
      SplitFirst(parts[0], sep, Join(parts[1..], sep));
    } else {
      assert parts == [parts[0]];
      JoinOne(parts[0], sep);
      SplitLast(parts[0], sep);
    }
  }

  lemma CharFound(s: string, c: char)
    ensures Index(s, [c]) >= 0 ==> Index(s, [c]) < |s| && s[Index(s, [c])] == c
  {
    hide Index;
    var i := Index(s, [c]);
    if i >= 0 {
      assert s[i] == s[i..i + 1][0];
    }
  }

  /** With a one-character separator, a part is separable when it does not hold that character. */
  lemma SeparableChar(part: string, c: char)
    requires c !in part
    ensures Separable(part, [c])
  {
    hide Index;
    var s := part + [c];
    assert s[|part|..|part| + 1] == [c];
    IndexIsFirst(s, [c], |part|);
    CharFound(s, c);
    CharFound(part, c);
  }

  /** Byte order of strings, smaller or equal. */
  predicate AtMost(a: string, b: string) {
    a == "" || (b != "" && (a[0] < b[0] || (a[0] == b[0] && AtMost(a[1..], b[1..]))))
  }

  /** The order of bytes: a text is at most another when it is a prefix of it, or smaller at the first
      place where they differ. */
  lemma {:induction false} AtMostIs(a: string, b: string)
    ensures AtMost(a, b) <==> a <= b || exists i :: SmallerAt(a, b, i)
  {
    if a != "" && b != "" && a[0] == b[0] {
      AtMostIs(a[1..], b[1..]);
      assert a <= b <==> a[1..] <= b[1..];
      if i :| SmallerAt(a[1..], b[1..], i) {
        SmallerShift(a, b, i);
      }
      if i :| SmallerAt(a, b, i) {
        SmallerShift(a, b, i - 1);
      }
    } else if a != "" && b != "" {
      SmallerHead(a, b);
    }
  }

  ghost predicate SmallerAt(a: string, b: string, i: int) {
    0 <= i < |a| && i < |b| && a[..i] == b[..i] && a[i] < b[i]
  }

  lemma SmallerShift(a: string, b: string, i: int)
    requires a != "" && b != "" && a[0] == b[0]
    ensures SmallerAt(a[1..], b[1..], i) ==> SmallerAt(a, b, i + 1)
    ensures i >= 0 && SmallerAt(a, b, i + 1) ==> SmallerAt(a[1..], b[1..], i)
  {
    if 0 <= i && i + 1 <= |a| && i + 1 <= |b| {
      assert a[..i + 1] == [a[0]] + a[1..][..i] && b[..i + 1] == [b[0]] + b[1..][..i];
      assert a[1..][..i] == a[..i + 1][1..] && b[1..][..i] == b[..i + 1][1..];
    }
  }

  lemma SmallerHead(a: string, b: string)
    requires a != "" && b != "" && a[0] != b[0]
    ensures a[0] < b[0] <==> exists i :: SmallerAt(a, b, i)
    ensures !(a <= b)
  {
    if a[0] < b[0] {
      assert SmallerAt(a, b, 0);
    }
    if i :| SmallerAt(a, b, i) {
      if i > 0 {
        assert a[..i][0] == b[..i][0];
      }
    }
  }

  lemma {:induction false} AtMostTotal(a: string, b: string)
    ensures AtMost(a, b) || AtMost(b, a)
  {
    if a != "" && b != "" {
      AtMostTotal(a[1..], b[1..]);
    }
  }

  lemma {:induction false} AtMostAntisymmetric(a: string, b: string)
    requires AtMost(a, b) && AtMost(b, a)
    ensures a == b
  {
    if a != "" && b != "" {
      AtMostAntisymmetric(a[1..], b[1..]);
      assert a == [a[0]] + a[1..] && b == [b[0]] + b[1..];
    }
  }

  lemma {:induction false} AtMostTransitive(a: string, b: string, c: string)
    requires AtMost(a, b) && AtMost(b, c)
    ensures AtMost(a, c)
  {
    if a != "" && b != "" && c != "" && a[0] == b[0] == c[0] {
      AtMostTransitive(a[1..], b[1..], c[1..]);
    }
  }

  ghost predicate Ascending(ks: seq<string>) {
    forall i, j | 0 <= i < j < |ks| :: AtMost(ks[i], ks[j])
  }

  ghost predicate Distinct<T>(xs: seq<T>) {
    forall i, j | 0 <= i < j < |xs| :: xs[i] != xs[j]
  }

  function Insert(k: string, ks: seq<string>): (r: seq<string>)
    ensures multiset(r) == multiset(ks) + multiset{k}
  {
    if ks == [] || AtMost(k, ks[0]) then
      assert ks == [] || ks == [ks[0]] + ks[1..];
      [k] + ks
    else
      assert ks == [ks[0]] + ks[1..];
      [ks[0]] + Insert(k, ks[1..])
  }

  /** slices.Sort on strings. */
  function Sort(ks: seq<string>): (r: seq<string>)
    ensures multiset(r) == multiset(ks)
  {
    if ks == [] then []
    else
      assert ks == [ks[0]] + ks[1..];
      Insert(ks[0], Sort(ks[1..]))
  }

  lemma SameMultisetSameElements<T>(a: seq<T>, b: seq<T>)
    requires multiset(a) == multiset(b)
    ensures |a| == |b|
    ensures forall x :: x in a <==> x in b
  {
    assert |multiset(a)| == |a|;
    forall x ensures x in a <==> x in b {
      assert x in a <==> x in multiset(a);
    }
  }

  lemma {:induction false} InsertAscending(k: string, ks: seq<string>)
    requires Ascending(ks)
    ensures Ascending(Insert(k, ks))
  {
    if ks == [] {
    } else if AtMost(k, ks[0]) {
      forall j | 0 <= j < |ks| ensures AtMost(k, ks[j]) {
        if j > 0 { AtMostTransitive(k, ks[0], ks[j]); }
      }
    } else {
      AtMostTotal(k, ks[0]);
      var rest := Insert(k, ks[1..]);
      InsertAscending(k, ks[1..]);
      forall j | 0 <= j < |rest| ensures AtMost(ks[0], rest[j]) {
        assert rest[j] in multiset(rest);
        assert rest[j] == k || rest[j] in ks[1..];
      }
    }
  }

  /** Sorting gives the same strings in byte order. */
  lemma {:induction false} SortAscending(ks: seq<string>)
    ensures Ascending(Sort(ks))
  {
    if ks != [] {
      SortAscending(ks[1..]);
      InsertAscending(ks[0], Sort(ks[1..]));
    }
  }

  ghost predicate IsSmallest(k: string, keys: set<string>) {
    k in keys && forall x | x in keys :: AtMost(k, x)
  }

  lemma {:induction false} SmallestExists(keys: set<string>)
    requires keys != {}
    ensures exists k :: IsSmallest(k, keys)
  {
    hide IsSmallest;
    var y :| y in keys;
    var rest := keys - {y};
    if rest == {} {
      assert keys == {y};
      OneIsSmallest(y);
    } else {
      SmallestExists(rest);
      var z :| IsSmallest(z, rest);
      SmallerOfTwo(keys, y, z);
    }
  }

  lemma OneIsSmallest(y: string)
    ensures IsSmallest(y, {y})
  {
    hide AtMost;
    AtMostTotal(y, y);
  }

  lemma SmallerOfTwo(keys: set<string>, y: string, z: string)
    requires y in keys && IsSmallest(z, keys - {y})
    ensures IsSmallest(y, keys) || IsSmallest(z, keys)
  {
    hide AtMost;
    AtMostTotal(y, z);
    AtMostTotal(y, y);
    forall x | x in keys ensures if AtMost(y, z) then AtMost(y, x) else AtMost(z, x) {
      assert x != y ==> x in keys - {y};
      if AtMost(y, z) && x != y { AtMostTransitive(y, z, x); }
    }
  }

  function Smallest(keys: set<string>): (k: string)
    requires keys != {}
    ensures k in keys && forall x | x in keys :: AtMost(k, x)
  {
    SmallestExists(keys);
    assert forall a, b | a in keys && b in keys && AtMost(a, b) && AtMost(b, a) :: a == b by {
      forall a, b | a in keys && b in keys && AtMost(a, b) && AtMost(b, a) ensures a == b {
        AtMostAntisymmetric(a, b);
      }
    }
    var k :| k in keys && forall x | x in keys :: AtMost(k, x);
    k
  }

  /** The keys of a bucket in cursor order: every key once, ascending by bytes. */
  function CursorOrder(keys: set<string>): (ks: seq<string>)
    ensures Ascending(ks) && Distinct(ks) && |ks| == |keys|
    ensures forall k :: k in ks <==> k in keys
    decreases |keys|
  {
    if keys == {} then []
    else
      var k := Smallest(keys);
      var rest := CursorOrder(keys - {k});
      assert forall j | 0 <= j < |rest| :: rest[j] in keys - {k};
      [k] + rest
  }
}
