/** The composite key under which an invocation is stored: what two invocations must share to
    share a record. */
module InvokeKeys {
  import opened Decimal
  import opened FlatStore

  lemma CutAtFirst(a: string, b: string, x: string, y: string, c: char)
    requires c !in a && c !in b
    requires a + [c] + x == b + [c] + y
    ensures a == b && x == y
  {
    var s, t := a + [c] + x, b + [c] + y;
    assert s[|a|] == c && t[|b|] == c;
    assert a == s[..|a|] && b == t[..|b|];
    assert x == s[|a| + 1..] && y == t[|b| + 1..];
  }

  lemma CutAtLength(a: string, b: string, x: string, y: string)
    requires |a| == |b| && a + x == b + y
    ensures a == b && x == y
  {
    assert a == (a + x)[..|a|] && b == (b + y)[..|b|];
    assert x == (a + x)[|a|..] && y == (b + y)[|b|..];
  }

  function Head(txid: string): string
    requires |txid| >= 3
  {
    txid[..3]
  }

  function Tail(txid: string): string
    requires |txid| >= 3
  {
    txid[|txid| - 3..]
  }

  function AfterTxid(height: Int64, entrypoint: string): string {
    FormatInt(height) + ":" + entrypoint
  }

  lemma KeyShape(signer: string, txid: string, height: Int64, entrypoint: string)
    requires |txid| >= 3
    ensures InvokeKey(signer, txid, height, entrypoint) ==
      signer + ":" + (Head(txid) + (Tail(txid) + (":" + AfterTxid(height, entrypoint))))
  {
  }

  /** For signers without a colon, two keys are equal exactly when signer, height, entrypoint and
      the first and last three characters of the Txid agree. */
  lemma KeysEqualIff(s1: string, t1: string, h1: Int64, e1: string, s2: string, t2: string, h2: Int64, e2: string)
    requires |t1| >= 3 && |t2| >= 3
    requires ':' !in s1 && ':' !in s2
    ensures InvokeKey(s1, t1, h1, e1) == InvokeKey(s2, t2, h2, e2) <==>
      s1 == s2 && Head(t1) == Head(t2) && Tail(t1) == Tail(t2) && h1 == h2 && e1 == e2
  {
    KeyShape(s1, t1, h1, e1);
    KeyShape(s2, t2, h2, e2);
    if InvokeKey(s1, t1, h1, e1) == InvokeKey(s2, t2, h2, e2) {
      KeyParts(s1, Head(t1), Tail(t1), h1, e1, s2, Head(t2), Tail(t2), h2, e2);
    }
  }

  lemma KeyParts(
    s1: string, a1: string, b1: string, h1: Int64, e1: string,
    s2: string, a2: string, b2: string, h2: Int64, e2: string)
    requires ':' !in s1 && ':' !in s2 && |a1| == |a2| && |b1| == |b2|
    requires s1 + ":" + (a1 + (b1 + (":" + AfterTxid(h1, e1)))) == s2 + ":" + (a2 + (b2 + (":" + AfterTxid(h2, e2))))
    ensures s1 == s2 && a1 == a2 && b1 == b2 && h1 == h2 && e1 == e2
  {
    hide FormatInt;
    CutAtFirst(s1, s2, a1 + (b1 + (":" + AfterTxid(h1, e1))), a2 + (b2 + (":" + AfterTxid(h2, e2))), ':');
    CutAtLength(a1, a2, b1 + (":" + AfterTxid(h1, e1)), b2 + (":" + AfterTxid(h2, e2)));
    CutAtLength(b1, b2, ":" + AfterTxid(h1, e1), ":" + AfterTxid(h2, e2));
    CutAtLength(":", ":", AfterTxid(h1, e1), AfterTxid(h2, e2));
    FormatCharacters(h1);
    FormatCharacters(h2);
    CutAtFirst(FormatInt(h1), FormatInt(h2), e1, e2, ':');
    FormatInjective(h1, h2);
  }

  /** With a colon in a signer the key is ambiguous: for any Txids and heights, two invocations by
      different signers share a key and one overwrites the other. */
  lemma ColonsMakeKeysCollide(signer: string, t1: string, h1: Int64, t2: string, h2: Int64, entrypoint: string)
    requires |t1| >= 3 && |t2| >= 3
    ensures InvokeKey(signer, t1, h1, Head(t2) + Tail(t2) + ":" + FormatInt(h2) + ":" + entrypoint) ==
      InvokeKey(signer + ":" + Head(t1) + Tail(t1) + ":" + FormatInt(h1), t2, h2, entrypoint)
  {
    hide FormatInt;
    var first, last := signer + ":" + Head(t1) + Tail(t1) + ":" + FormatInt(h1), FormatInt(h2) + ":" + entrypoint;
    assert Head(t2) + Tail(t2) + ":" + FormatInt(h2) + ":" + entrypoint == Head(t2) + Tail(t2) + ":" + last;
    assert first + ":" + (Head(t2) + Tail(t2) + ":" + last) ==
      first + ":" + Head(t2) + Tail(t2) + ":" + FormatInt(h2) + ":" + entrypoint;
  }
}
