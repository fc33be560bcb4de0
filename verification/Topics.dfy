/** The topics of machines, of their online status and of the machine lists. */
module Topics {
  import opened OpcUa
  import IdEncode

  const PREFIX := "umati/v2"

  function Machine(client: string, specification: string, machineId: IdEncode.Text): string {
    PREFIX + "/" + client + "/" + specification + "/" + IdEncode.Encode(machineId)
  }

  function List(client: string, specification: string): string {
    PREFIX + "/" + client + "/list/" + specification
  }

  function ErrorList(client: string, specification: string): string {
    PREFIX + "/" + client + "/bad_list/" + specification
  }

  function OnlineStatus(client: string, machineId: IdEncode.Text): string {
    PREFIX + "/" + client + "/online/" + IdEncode.Encode(machineId)
  }

  // ---------- the levels of a topic ----------

  /** The parts between the slashes. */
  function Levels(topic: string): seq<string> {
    if topic == "" then [""]
    else
      var rest := Levels(topic[1..]);
      if topic[0] == '/' then [""] + rest
      else if rest == [] then [[topic[0]]] else [[topic[0]] + rest[0]] + rest[1..]
  }

  lemma {:induction false} LevelsOfOne(a: string)
    requires '/' !in a
    ensures Levels(a) == [a]
  {
    if a != "" {
      LevelsOfOne(a[1..]);
      assert [a[0]] + a[1..] == a;
    }
  }

  lemma {:induction false} LevelsOfSum(a: string, b: string)
    requires '/' !in a
    ensures Levels(a + "/" + b) == [a] + Levels(b)
  {
    if a == "" {
      assert ("" + "/" + b)[1..] == b;
    } else {
      LevelsOfSum(a[1..], b);
      assert (a + "/" + b)[1..] == a[1..] + "/" + b;
      assert [a[0]] + a[1..] == a;
    }
  }

  lemma LevelsBehindClient(client: string, a: string, b: string)
    requires '/' !in client && '/' !in a && '/' !in b
    ensures Levels("umati/v2" + "/" + client + "/" + a + "/" + b) == ["umati", "v2", client, a, b]
  {
    var tail := client + "/" + (a + "/" + b);
    assert "umati/v2" + "/" + client + "/" + a + "/" + b == "umati" + "/" + ("v2" + "/" + tail);
    LevelsOfSum("umati", "v2" + "/" + tail);
    LevelsOfSum("v2", tail);
    LevelsOfSum(client, a + "/" + b);
    LevelsOfSum(a, b);
    LevelsOfOne(b);
  }

  lemma OnlineLevels(client: string, id: IdEncode.Text)
    requires '/' !in client && '/' !in IdEncode.Encode(id)
    ensures Levels(OnlineStatus(client, id)) == ["umati", "v2", client, "online", IdEncode.Encode(id)]
  {
    LevelsBehindClient(client, "online", IdEncode.Encode(id));
    assert "/" + "online" + "/" == "/online/";
    Regroup(PREFIX + "/" + client, "online", IdEncode.Encode(id));
  }

  lemma ListLevels(client: string, specification: string)
    requires '/' !in client && '/' !in specification
    ensures Levels(List(client, specification)) == ["umati", "v2", client, "list", specification]
  {
    LevelsBehindClient(client, "list", specification);
    assert "/" + "list" + "/" == "/list/";
    Regroup(PREFIX + "/" + client, "list", specification);
  }

  lemma ErrorListLevels(client: string, specification: string)
    requires '/' !in client && '/' !in specification
    ensures Levels(ErrorList(client, specification)) == ["umati", "v2", client, "bad_list", specification]
  {
    LevelsBehindClient(client, "bad_list", specification);
    assert "/" + "bad_list" + "/" == "/bad_list/";
    Regroup(PREFIX + "/" + client, "bad_list", specification);
  }

  /** The five levels of every topic: the prefix, the client, then type and machine, or the
      kind of the topic and what it is about. */
  lemma TopicLevels(client: string, specification: string, id: IdEncode.Text)
    requires '/' !in client && '/' !in specification
    ensures Levels(Machine(client, specification, id)) == ["umati", "v2", client, specification, IdEncode.Encode(id)]
    ensures Levels(OnlineStatus(client, id)) == ["umati", "v2", client, "online", IdEncode.Encode(id)]
    ensures Levels(List(client, specification)) == ["umati", "v2", client, "list", specification]
    ensures Levels(ErrorList(client, specification)) == ["umati", "v2", client, "bad_list", specification]
  {
    IdEncode.EncodedIsTopicSafe(id);
    LevelsBehindClient(client, specification, IdEncode.Encode(id));
    OnlineLevels(client, id);
    ListLevels(client, specification);
    ErrorListLevels(client, specification);
  }

  lemma Regroup(a: string, b: string, c: string)
    ensures a + "/" + b + "/" + c == a + ("/" + b + "/") + c
  {
  }

  // ---------- the string form of a node id ----------

  /** The beginning of an identifier as the server conversion writes it. */
  predicate Prefixed(id: string) {
    |id| >= 2 && id[0] in {'i', 's', 'g', 'b'} && id[1] == '='
  }

  predicate WellFormed(n: NodeId) {
    n.id == "" || Prefixed(n.id)
  }

  function IdOrZero(n: NodeId): string {
    if n.id == "" then "i=0" else n.id
  }

  lemma {:induction false} SplitAtFirst(c: char, a: string, b: string, x: string, y: string)
    requires c !in a && c !in b
    requires a + [c] + x == b + [c] + y
    ensures a == b && x == y
  {
    var s, t := a + [c] + x, b + [c] + y;
    assert s[|a|] == c && t[|b|] == c;
    assert |a| == |b|;
    assert s[..|a|] == a && t[..|b|] == b;
    assert s[|a| + 1..] == x && t[|b| + 1..] == y;
  }

  lemma {:induction false} SplitAtLast(c: char, a: string, b: string, x: string, y: string)
    requires c !in x && c !in y
    requires a + [c] + x == b + [c] + y
    ensures a == b && x == y
  {
    var s, t := a + [c] + x, b + [c] + y;
    assert s[|a|] == c && t[|b|] == c;
    assert |a| == |b|;
    assert s[..|a|] == a && t[..|b|] == b;
    assert s[|a| + 1..] == x && t[|b| + 1..] == y;
  }

  lemma TextStart(n: NodeId)
    requires WellFormed(n)
    ensures n.Text() != "" && (n.uri == "" <==> n.Text()[0] != 'n')
    ensures if n.uri == "" then n.Text() == IdOrZero(n) else n.Text() == "nsu=" + (n.uri + [';'] + IdOrZero(n))
  {
    if n.uri == "" {
      assert IdOrZero(n)[1] == '=';
    } else {
      assert "nsu=" + n.uri + ";" + IdOrZero(n) == "nsu=" + (n.uri + [';'] + IdOrZero(n));
    }
  }

  /** The namespace `v` is `u` with a semicolon and what looks like an identifier behind it. */
  predicate Extends(u: string, v: string) {
    |u| < |v| && u <= v && v[|u|] == ';' && Prefixed(v[|u| + 1..])
  }

  /** The identifier of `a` swallows the end of the namespace of `b`. */
  predicate Overlap(a: NodeId, b: NodeId) {
    a.uri != "" && Extends(a.uri, b.uri) && IdOrZero(a) == b.uri[|a.uri| + 1..] + [';'] + IdOrZero(b)
  }

  predicate SameText(a: NodeId, b: NodeId) {
    (a.uri == b.uri && IdOrZero(a) == IdOrZero(b)) || Overlap(a, b) || Overlap(b, a)
  }

  lemma OverlapText(a: NodeId, b: NodeId)
    requires WellFormed(a) && WellFormed(b) && Overlap(a, b)
    ensures a.Text() == b.Text()
  {
    TextStart(a);
    TextStart(b);
    var w := b.uri[|a.uri| + 1..];
    assert b.uri == a.uri + [';'] + w;
    assert a.uri + [';'] + (w + [';'] + IdOrZero(b)) == (a.uri + [';'] + w) + [';'] + IdOrZero(b);
  }

  lemma Swallows(u: string, i: string, v: string, j: string)
    requires u + [';'] + i == v + [';'] + j && |u| < |v| && Prefixed(i)
    ensures Extends(u, v) && i == v[|u| + 1..] + [';'] + j
  {
    var x, y, n, w := u + [';'] + i, v + [';'] + j, |u|, v[|u| + 1..];
    assert x[..n] == u && y[..n] == v[..n];
    assert x[n] == ';' && y[n] == v[n];
    assert x[n + 1..] == i && y[n + 1..] == w + [';'] + j;
    assert (w + [';'] + j)[|w|] == ';';
  }

  lemma TextOverlap(a: NodeId, b: NodeId)
    requires WellFormed(a) && WellFormed(b) && a.uri != "" && |a.uri| < |b.uri| && a.Text() == b.Text()
    ensures Overlap(a, b)
  {
    TextStart(a);
    TextStart(b);
    var x, y := a.uri + [';'] + IdOrZero(a), b.uri + [';'] + IdOrZero(b);
    assert ("nsu=" + x)[4..] == x && ("nsu=" + y)[4..] == y;
    Swallows(a.uri, IdOrZero(a), b.uri, IdOrZero(b));
  }

  /** Two node ids share their string form exactly if they are equal, up to the empty
      identifier, which is written "i=0", or one identifier swallows the end of the other
      one's namespace. */
  lemma TextEqualIff(a: NodeId, b: NodeId)
    requires WellFormed(a) && WellFormed(b)
    ensures a.Text() == b.Text() <==> SameText(a, b)
  {
    TextStart(a);
    TextStart(b);
    if a.Text() == b.Text() && a.uri != "" && b.uri != "" {
      if |a.uri| < |b.uri| {
        TextOverlap(a, b);
      } else if |b.uri| < |a.uri| {
        TextOverlap(b, a);
      } else {
        var x, y := a.uri + [';'] + IdOrZero(a), b.uri + [';'] + IdOrZero(b);
        assert ("nsu=" + x)[4..] == x && ("nsu=" + y)[4..] == y;
        assert x[..|a.uri|] == a.uri && y[..|a.uri|] == b.uri;
        assert x[|a.uri| + 1..] == IdOrZero(a) && y[|a.uri| + 1..] == IdOrZero(b);
      }
    }
    if Overlap(a, b) {
      OverlapText(a, b);
    }
    if Overlap(b, a) {
      OverlapText(b, a);
    }
  }

  lemma CollidingIds(u: string, v: string)
    requires u != "" && Extends(u, v)
    ensures var i := v[|u| + 1..] + [';'] + "i=0"; Prefixed(i) && NodeId(u, i).Text() == NodeId(v, "i=0").Text()
  {
    var i := v[|u| + 1..] + [';'] + "i=0";
    assert Prefixed("i=0") && Prefixed(i);
    OverlapText(NodeId(u, i), NodeId(v, "i=0"));
  }

  predicate Collide(u: string, v: string) {
    u != "" && v != "" && (Extends(u, v) || Extends(v, u))
  }

  /** Two namespaces have node ids that share their string form exactly if one is the other
      with a semicolon and the beginning of an identifier behind it. */
  lemma NamespacesCollideIff(u: string, v: string)
    requires u != v
    ensures Collide(u, v) <==>
            exists i, j :: Prefixed(i) && Prefixed(j) && NodeId(u, i).Text() == NodeId(v, j).Text()
  {
    if u != "" && v != "" && Extends(u, v) {
      CollidingIds(u, v);
    } else if u != "" && v != "" && Extends(v, u) {
      CollidingIds(v, u);
    }
    if i, j :| Prefixed(i) && Prefixed(j) && NodeId(u, i).Text() == NodeId(v, j).Text() {
      TextEqualIff(NodeId(u, i), NodeId(v, j));
    }
  }

  /** Otherwise the string form tells node ids apart. */
  lemma TextInjective(a: NodeId, b: NodeId)
    requires WellFormed(a) && WellFormed(b) && !Collide(a.uri, b.uri)
    ensures a.Text() == b.Text() <==> a.uri == b.uri && IdOrZero(a) == IdOrZero(b)
  {
    TextEqualIff(a, b);
  }

  /** One pair of different node ids that share it. */
  lemma SemicolonCollides()
    ensures NodeId("a;s=b", "s=c").Text() == NodeId("a", "s=b;s=c").Text()
    ensures NodeId("a;s=b", "s=c") != NodeId("a", "s=b;s=c")
  {
    assert "nsu=" + "a;s=b" + ";" + "s=c" == "nsu=" + "a" + ";" + "s=b;s=c";
    assert |"a;s=b"| != |"a"|;
  }

  // ---------- topics tell machines apart ----------

  function Base(client: string): string {
    PREFIX + "/" + client + "/"
  }

  lemma CancelBase(client: string, x: string, y: string)
    ensures Base(client) + x == Base(client) + y <==> x == y
  {
    assert (Base(client) + x)[|Base(client)|..] == x;
    assert (Base(client) + y)[|Base(client)|..] == y;
  }

  lemma MachineTail(client: string, specification: string, id: IdEncode.Text)
    ensures Machine(client, specification, id) == Base(client) + (specification + ['/'] + IdEncode.Encode(id))
  {
  }

  lemma OnlineTail(client: string, id: IdEncode.Text)
    ensures OnlineStatus(client, id) == Base(client) + ("online" + ['/'] + IdEncode.Encode(id))
  {
    assert "/online/" == "/" + "online" + ['/'];
  }

  lemma ListTail(client: string, specification: string)
    ensures List(client, specification) == Base(client) + ("list" + ['/'] + specification)
    ensures ErrorList(client, specification) == Base(client) + ("bad_list" + ['/'] + specification)
  {
    assert "/list/" == "/" + "list" + ['/'];
    assert "/bad_list/" == "/" + "bad_list" + ['/'];
  }

  /** Whatever the type names hold, a machine topic determines the type name and the id; it
      is an online topic exactly if the type is called "online". */
  lemma MachineTopicsInjective(client: string, s: string, a: IdEncode.Text, t: string, b: IdEncode.Text)
    ensures Machine(client, s, a) == Machine(client, t, b) <==> s == t && a == b
    ensures Machine(client, s, a) == OnlineStatus(client, b) <==> s == "online" && a == b
    ensures OnlineStatus(client, a) == OnlineStatus(client, b) <==> a == b
  {
    EncodedTailsAgree(s, a, t, b);
    EncodedTailsAgree(s, a, "online", b);
    EncodedTailsAgree("online", a, "online", b);
    MachineTail(client, s, a);
    MachineTail(client, t, b);
    OnlineTail(client, a);
    OnlineTail(client, b);
    CancelBase(client, s + ['/'] + IdEncode.Encode(a), t + ['/'] + IdEncode.Encode(b));
    CancelBase(client, s + ['/'] + IdEncode.Encode(a), "online" + ['/'] + IdEncode.Encode(b));
    CancelBase(client, "online" + ['/'] + IdEncode.Encode(a), "online" + ['/'] + IdEncode.Encode(b));
  }

  lemma EncodedTailsAgree(x: string, a: IdEncode.Text, y: string, b: IdEncode.Text)
    ensures x + ['/'] + IdEncode.Encode(a) == y + ['/'] + IdEncode.Encode(b) <==> x == y && a == b
  {
    IdEncode.EncodedIsTopicSafe(a);
    IdEncode.EncodedIsTopicSafe(b);
    if x + ['/'] + IdEncode.Encode(a) == y + ['/'] + IdEncode.Encode(b) {
      SplitAtLast('/', x, y, IdEncode.Encode(a), IdEncode.Encode(b));
      IdEncode.EncodeInjective(a, b);
    }
  }

  /** Two machines share a topic exactly if their node ids share their string form; node ids
      from namespaces that do not collide never do. */
  lemma NodeTopicsDistinct(client: string, s: string, a: NodeId, t: string, b: NodeId)
    requires WellFormed(a) && WellFormed(b) && Bytes(a.Text()) && Bytes(b.Text())
    ensures Machine(client, s, a.Text()) == Machine(client, t, b.Text()) <==> s == t && SameText(a, b)
    ensures OnlineStatus(client, a.Text()) == OnlineStatus(client, b.Text()) <==> SameText(a, b)
    ensures !Collide(a.uri, b.uri) && a.id != "" && b.id != "" ==> (SameText(a, b) <==> a == b)
  {
    TextEqualIff(a, b);
    MachineTopicsInjective(client, s, a.Text(), t, b.Text());
  }

  predicate Bytes(s: string) {
    forall i :: 0 <= i < |s| ==> s[i] as int < 256
  }

  /** The list topics determine the type name and never meet the error lists or the online
      topics; with a type name without slash, a machine topic is a list topic exactly if the
      type is called "list". */
  lemma ListTopicsDistinct(client: string, s: string, t: string, a: IdEncode.Text)
    ensures List(client, s) == List(client, t) <==> s == t
    ensures ErrorList(client, s) == ErrorList(client, t) <==> s == t
    ensures List(client, s) != ErrorList(client, t) && List(client, s) != OnlineStatus(client, a)
    ensures '/' !in s ==> (Machine(client, s, a) == List(client, t) <==> s == "list" && t == IdEncode.Encode(a))
  {
    ListTail(client, s);
    ListTail(client, t);
    OnlineTail(client, a);
    MachineTail(client, s, a);
    CancelBase(client, "list" + ['/'] + s, "list" + ['/'] + t);
    CancelBase(client, "bad_list" + ['/'] + s, "bad_list" + ['/'] + t);
    CancelBase(client, "list" + ['/'] + s, "bad_list" + ['/'] + t);
    CancelBase(client, "list" + ['/'] + s, "online" + ['/'] + IdEncode.Encode(a));
    assert ("list" + ['/'] + s)[5..] == s && ("list" + ['/'] + t)[5..] == t;
    assert ("bad_list" + ['/'] + s)[9..] == s && ("bad_list" + ['/'] + t)[9..] == t;
    assert ("list" + ['/'] + s)[0] == 'l' && ("bad_list" + ['/'] + t)[0] == 'b'
           && ("online" + ['/'] + IdEncode.Encode(a))[0] == 'o';
    if '/' !in s {
      CancelBase(client, s + ['/'] + IdEncode.Encode(a), "list" + ['/'] + t);
      if s + ['/'] + IdEncode.Encode(a) == "list" + ['/'] + t {
        SplitAtFirst('/', s, "list", IdEncode.Encode(a), t);
      }
    }
  }
}
