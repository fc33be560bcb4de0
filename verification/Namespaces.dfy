/** The namespace caches: which 16-bit index the server uses for a namespace, and back. */
module Namespaces {
  import opened OpcUa

  const UINT16_MOD := 0x1_0000

  datatype Caches = Caches(toIndex: map<string, nat>, toUri: map<nat, string>)

  /** What filling empty caches from the server's namespace table leaves behind: the first
      entry of a namespace counts, and its position is cut to 16 bits. */
  function Fill(table: seq<string>): Caches {
    if table == [] then Caches(map[], map[])
    else
      var n := |table| - 1;
      var c, uri, index := Fill(table[..n]), table[n], n % UINT16_MOD;
      if uri in c.toIndex then c else Caches(c.toIndex[uri := index], c.toUri[index := uri])
  }

  /** Every entry the caches had before is still there. */
  predicate Compatible(before: map<nat, string>, now: map<nat, string>) {
    forall i :: i in before ==> i in now && now[i] == before[i]
  }

  // ---------- the program ----------

  class NamespaceCache {
    var uriToIndex: map<string, nat>
    var indexToUri: map<nat, string>
    /** How often the whole gateway was told to start over. */
    var resets: nat

    function Content(): Caches
      reads this
    {
      Caches(uriToIndex, indexToUri)
    }

    constructor ()
      ensures Content() == Caches(map[], map[]) && resets == 0
    {
      uriToIndex, indexToUri, resets := map[], map[], 0;
    }

    method FillNamespaceCache(table: seq<string>)
      requires Content() == Caches(map[], map[])
      modifies this
      ensures Content() == Fill(table) && resets == old(resets)
    {
      for i := 0 to |table|
        invariant Content() == Fill(table[..i]) && resets == old(resets)
      {
        assert table[..i + 1][..i] == table[..i];
        var uri := table[i];
        if uri !in uriToIndex {
          uriToIndex := uriToIndex[uri := i % UINT16_MOD];
          indexToUri := indexToUri[i % UINT16_MOD := uri];
        }
      }
      assert table[..|table|] == table;
    }

    method VerifyCompatibleNamespaceCache(before: map<nat, string>) returns (ok: bool)
      ensures ok <==> Compatible(before, indexToUri)
    {
      var todo := before.Keys;
      while todo != {}
        invariant todo <= before.Keys
        invariant forall i :: i in before && i !in todo ==> i in indexToUri && indexToUri[i] == before[i]
      {
        var i :| i in todo;
        if i !in indexToUri || indexToUri[i] != before[i] {
          return false;
        }
        todo := todo - {i};
      }
      return true;
    }

    method UpdateNamespaceCache(table: seq<string>)
      modifies this
      ensures Content() == Fill(table)
      ensures resets == old(resets) + if Compatible(old(indexToUri), indexToUri) then 0 else 1
    {
      var existing := indexToUri;
      uriToIndex, indexToUri := map[], map[];
      FillNamespaceCache(table);
      var ok := VerifyCompatibleNamespaceCache(existing);
      if !ok {
        resets := resets + 1;
      }
    }

    /** One update for every namespace table the server showed. */
    method Reconnect(tables: seq<seq<string>>)
      requires Content() == Caches(map[], map[]) && resets == 0
      modifies this
      ensures resets == Resets(tables)
      ensures tables != [] ==> Content() == Fill(tables[|tables| - 1])
    {
      for k := 0 to |tables|
        invariant resets == Resets(tables[..k])
        invariant Content() == if k == 0 then Caches(map[], map[]) else Fill(tables[k - 1])
      {
        assert tables[..k + 1][..k] == tables[..k];
        UpdateNamespaceCache(tables[k]);
      }
      assert tables[..|tables|] == tables;
    }
  }

  // ---------- the caches are inverse to each other ----------

  function First(table: seq<string>, uri: string): (i: nat)
    requires uri in table
    ensures i < |table| && table[i] == uri && uri !in table[..i]
  {
    var n := |table| - 1;
    if uri in table[..n] then
      var i := First(table[..n], uri);
      assert table[..n][..i] == table[..i];
      i
    else n
  }

  /** Position `k` is the first of its namespace, and cut to index `i`. */
  predicate CutTo(table: seq<string>, k: nat, i: nat) {
    k < |table| && table[k] !in table[..k] && k % 0x1_0000 == i
  }

  /** An index stands for the last of the namespaces whose first position is cut to it. */
  lemma {:induction false} ToUriIsLast(table: seq<string>, k: nat, i: nat)
    requires CutTo(table, k, i) && forall j: nat :: CutTo(table, j, i) ==> j <= k
    ensures i in Fill(table).toUri && Fill(table).toUri[i] == table[k]
    decreases |table|
  {
    var n := |table| - 1;
    ToIndexIsFirst(table[..n], table[n]);
    if k < n {
      forall j: nat
        ensures CutTo(table[..n], j, i) ==> CutTo(table, j, i)
      {
        if CutTo(table[..n], j, i) {
          assert table[..n][..j] == table[..j];
        }
      }
      assert table[..n][..k] == table[..k];
      ToUriIsLast(table[..n], k, i);
      assert !CutTo(table, n, i);
    }
  }

  /** Any other index is not cached. */
  lemma {:induction false} ToUriIff(table: seq<string>, i: nat)
    ensures i in Fill(table).toUri <==> exists k: nat :: CutTo(table, k, i)
    decreases |table|
  {
    if table != [] {
      var n := |table| - 1;
      ToUriIff(table[..n], i);
      ToIndexIsFirst(table[..n], table[n]);
      forall k: nat
        ensures CutTo(table[..n], k, i) <==> CutTo(table, k, i) && k < n
      {
        if k < n {
          assert table[..n][..k] == table[..k];
        }
      }
      if k: nat :| CutTo(table, k, i) && k != n {
        assert CutTo(table[..n], k, i);
      }
      if table[n] !in table[..n] && n % 0x1_0000 == i {
        assert CutTo(table, n, i);
      }
    }
  }

  lemma {:induction false} ToIndexIsFirst(table: seq<string>, uri: string)
    ensures uri in Fill(table).toIndex <==> uri in table
    ensures uri in table ==> Fill(table).toIndex[uri] == First(table, uri) % UINT16_MOD
  {
    if table != [] {
      var n := |table| - 1;
      ToIndexIsFirst(table[..n], uri);
      assert table == table[..n] + [table[n]];
    }
  }

  /** The index cache holds namespaces under the index the other cache has for them. */
  lemma {:induction false} ToUriIsBacked(table: seq<string>)
    ensures forall i :: i in Fill(table).toUri ==>
              Fill(table).toUri[i] in Fill(table).toIndex && Fill(table).toIndex[Fill(table).toUri[i]] == i
    ensures forall u :: u in Fill(table).toIndex ==> Fill(table).toIndex[u] in Fill(table).toUri
  {
    if table != [] {
      ToUriIsBacked(table[..|table| - 1]);
    }
  }

  predicate Inverse(c: Caches) {
    && (forall u :: u in c.toIndex ==> c.toIndex[u] in c.toUri && c.toUri[c.toIndex[u]] == u)
    && (forall i :: i in c.toUri ==> c.toUri[i] in c.toIndex && c.toIndex[c.toUri[i]] == i)
  }

  /** No two namespaces are cut to the same index. */
  predicate NoClash(table: seq<string>) {
    forall u, v :: u in table && v in table && u != v ==> First(table, u) % UINT16_MOD != First(table, v) % UINT16_MOD
  }

  /** The caches are inverse to each other exactly if no two namespaces clash. */
  lemma InverseIff(table: seq<string>)
    ensures Inverse(Fill(table)) <==> NoClash(table)
  {
    var c := Fill(table);
    forall u ensures u in c.toIndex <==> u in table
             ensures u in table ==> c.toIndex[u] == First(table, u) % UINT16_MOD
    {
      ToIndexIsFirst(table, u);
    }
    ToUriIsBacked(table);
    if Inverse(c) {
      forall u, v | u in table && v in table && u != v
        ensures First(table, u) % UINT16_MOD != First(table, v) % UINT16_MOD
      {
        assert c.toUri[c.toIndex[u]] == u && c.toUri[c.toIndex[v]] == v;
      }
    }
  }

  lemma PositionsDiffer(table: seq<string>, u: string, v: string)
    requires |table| <= UINT16_MOD && u in table && v in table && u != v
    ensures First(table, u) % UINT16_MOD != First(table, v) % UINT16_MOD
  {
    var i, j := First(table, u), First(table, v);
    assert table[i] == u && table[j] == v;
    assert i % UINT16_MOD == i && j % UINT16_MOD == j;
  }

  /** So they are for every table of at most 65536 entries, duplicates included. */
  lemma ShortTablesAreInverse(table: seq<string>)
    requires |table| <= UINT16_MOD
    ensures NoClash(table) && Inverse(Fill(table))
  {
    forall u, v | u in table && v in table && u != v
      ensures First(table, u) % UINT16_MOD != First(table, v) % UINT16_MOD
    {
      PositionsDiffer(table, u, v);
    }
    InverseIff(table);
  }

  // ---------- translating namespaces ----------

  /** `getNsIndexFromUri`. */
  function ToUa(c: Caches, uri: string): nat {
    if uri == "" then 0 else if uri in c.toIndex then c.toIndex[uri] else 0
  }

  /** `getUriFromNsIndex`. */
  function ToModel(c: Caches, index: nat): string {
    if index == 0 then "" else if index in c.toUri then c.toUri[index] else ""
  }

  /** A node id translated with one pair of caches and back with a compatible later one. */
  lemma CrossTripIff(before: Caches, now: Caches, n: NodeId)
    requires Inverse(before) && Inverse(now) && Compatible(before.toUri, now.toUri)
    ensures n.uri in before.toIndex ==> n.uri in now.toIndex && now.toIndex[n.uri] == before.toIndex[n.uri]
    ensures n.uri in before.toIndex || n.uri == "" ==>
              (Same(NodeId(ToModel(now, ToUa(before, n.uri)), n.id), n) <==>
               n.uri == "" || n.uri == NS0_URI || before.toIndex[n.uri] != 0)
    ensures n.uri !in before.toIndex ==>
              (Same(NodeId(ToModel(now, ToUa(before, n.uri)), n.id), n) <==> n.uri == "" || n.uri == NS0_URI)
  {
    if n.uri in before.toIndex {
      var i := before.toIndex[n.uri];
      assert before.toUri[i] == n.uri && now.toUri[i] == n.uri;
    }
  }

  /** A model node id comes back equal from the server's form exactly if it is in namespace 0
      or its namespace is cached under another index than 0. */
  lemma RoundTripIff(table: seq<string>, n: NodeId)
    requires NoClash(table)
    ensures var c := Fill(table);
            Same(NodeId(ToModel(c, ToUa(c, n.uri)), n.id), n) <==>
            n.uri == "" || n.uri == NS0_URI || (n.uri in c.toIndex && c.toIndex[n.uri] != 0)
  {
    InverseIff(table);
    CrossTripIff(Fill(table), Fill(table), n);
  }

  /** An index comes back from the model's form exactly if it is 0 or stands for a namespace
      that is not the empty string. */
  lemma IndexRoundTripIff(table: seq<string>, index: nat)
    requires NoClash(table)
    ensures var c := Fill(table);
            ToUa(c, ToModel(c, index)) == index <==> index == 0 || (index in c.toUri && c.toUri[index] != "")
  {
    InverseIff(table);
  }

  /** Node ids from the server are in the one spelling of namespace 0 the rest of the model
      relies on, exactly if the table has namespace 0 at its own index or not at all. */
  lemma CanonicalIff(table: seq<string>)
    requires NoClash(table)
    ensures (forall i: nat, id :: NodeId(ToModel(Fill(table), i), id).Canonical()) <==>
            (NS0_URI in Fill(table).toIndex ==> Fill(table).toIndex[NS0_URI] == 0)
  {
    InverseIff(table);
    var c := Fill(table);
    if NS0_URI in c.toIndex && c.toIndex[NS0_URI] != 0 {
      assert !NodeId(ToModel(c, c.toIndex[NS0_URI]), "").Canonical();
    }
  }

  // ---------- reconnecting ----------

  /** The resets of a run of updates, starting with empty caches. */
  function Resets(tables: seq<seq<string>>): nat {
    var n := |tables|;
    if n == 0 then 0
    else
      var before := if n == 1 then map[] else Fill(tables[n - 2]).toUri;
      Resets(tables[..n - 1]) + if Compatible(before, Fill(tables[n - 1]).toUri) then 0 else 1
  }

  lemma {:induction false} NoResetKeepsIndices(tables: seq<seq<string>>, j: nat, k: nat)
    requires j <= k < |tables| && Resets(tables) == 0
    ensures Compatible(Fill(tables[j]).toUri, Fill(tables[k]).toUri)
    decreases |tables|
  {
    var n := |tables|;
    var front := tables[..n - 1];
    if k < n - 1 {
      NoResetKeepsIndices(front, j, k);
    } else if j < n - 1 {
      NoResetKeepsIndices(front, j, n - 2);
    }
  }

  /** Without a reset, a namespace has the same index forever, and a node id translated in one
      session comes back equal in any later one, namespace 0 aside. */
  lemma NoResetKeepsNodeIds(tables: seq<seq<string>>, j: nat, k: nat, n: NodeId)
    requires j <= k < |tables| && Resets(tables) == 0 && NoClash(tables[j]) && NoClash(tables[k])
    requires n.uri in Fill(tables[j]).toIndex
    ensures n.uri in Fill(tables[k]).toIndex
    ensures Fill(tables[k]).toIndex[n.uri] == Fill(tables[j]).toIndex[n.uri]
    ensures Same(NodeId(ToModel(Fill(tables[k]), ToUa(Fill(tables[j]), n.uri)), n.id), n) <==>
            n.uri == "" || n.uri == NS0_URI || Fill(tables[j]).toIndex[n.uri] != 0
  {
    NoResetKeepsIndices(tables, j, k);
    InverseIff(tables[j]);
    InverseIff(tables[k]);
    CrossTripIff(Fill(tables[j]), Fill(tables[k]), n);
  }
}
