/** Embedding between message types: the generator's cycle check and its ordering
    (check_recursive_dependencies and sort_dependencies of nanopb_generator.py). */
module Dependencies {

  /** The embedding graph of the messages known so far: what get_dependencies lists for each
      name.  Names of other types may be listed too; they are not keys. */
  type Graph = map<string, seq<string>>

  // ---------- reachability ----------

  /** `path` starts among `deps`, follows the graph, and ends at `goal`. */
  predicate IsPath(g: Graph, deps: seq<string>, path: seq<string>, goal: string) {
    && path != []
    && path[0] in deps
    && path[|path| - 1] == goal
    && forall i | 0 <= i < |path| - 1 :: path[i] in g && path[i + 1] in g[path[i]]
  }

  /** A message listing `deps` contains the message `goal`, directly or not. */
  ghost predicate Reaches(g: Graph, deps: seq<string>, goal: string) {
    exists path :: IsPath(g, deps, path, goal)
  }

  /** No message contains itself. */
  ghost predicate Acyclic(g: Graph) {
    forall n | n in g :: !Reaches(g, g[n], n)
  }

  /** Every message ranks above the messages it embeds. */
  ghost predicate Ranked(g: Graph, rank: map<string, nat>) {
    && rank.Keys == g.Keys
    && forall n, d | n in g && d in g[n] && d in g :: rank[d] < rank[n]
  }

  lemma PathHead(g: Graph, deps: seq<string>, path: seq<string>, goal: string)
    requires IsPath(g, deps, path, goal) && |path| > 1
    ensures path[0] in g && IsPath(g, g[path[0]], path[1..], goal)
  {
    var rest := path[1..];
    forall i | 0 <= i < |rest| - 1
      ensures rest[i] in g && rest[i + 1] in g[rest[i]]
    {
      assert path[i + 1] in g && path[i + 2] in g[path[i + 1]];
    }
  }

  lemma PathCons(g: Graph, deps: seq<string>, d: string, path: seq<string>, goal: string)
    requires d in deps && d in g && IsPath(g, g[d], path, goal)
    ensures IsPath(g, deps, [d] + path, goal)
  {
  }

  /** The dependency `d` is the goal, or is known and reaches it. */
  ghost predicate LeadsTo(g: Graph, d: string, goal: string) {
    d == goal || (d in g && Reaches(g, g[d], goal))
  }

  lemma ReachesStep(g: Graph, deps: seq<string>, goal: string)
    ensures Reaches(g, deps, goal) <==> exists d | d in deps :: LeadsTo(g, d, goal)
  {
    if Reaches(g, deps, goal) {
      var path :| IsPath(g, deps, path, goal);
      if |path| > 1 {
        PathHead(g, deps, path, goal);
      }
      assert LeadsTo(g, path[0], goal);
    }
    forall d | d in deps && LeadsTo(g, d, goal)
      ensures Reaches(g, deps, goal)
    {
      if d == goal {
        assert IsPath(g, deps, [goal], goal);
      } else {
        var path :| IsPath(g, g[d], path, goal);
        PathCons(g, deps, d, path, goal);
      }
    }
  }

  // ---------- check_recursive_dependencies ----------

  /** The loop over the dependencies from index `i` on; known messages are searched in turn.
      It terminates because the known messages are ranked. */
  function Check(g: Graph, deps: seq<string>, i: nat, root: string, ghost rank: map<string, nat>, ghost bound: nat): bool
    requires Ranked(g, rank) && forall d | d in deps && d in g :: rank[d] < bound
    decreases bound, |deps| - i
  {
    if i >= |deps| then false
    else if deps[i] == root then true
    else if deps[i] in g && Check(g, g[deps[i]], 0, root, rank, rank[deps[i]]) then true
    else Check(g, deps, i + 1, root, rank, bound)
  }

  lemma {:induction false} CheckFrom(g: Graph, deps: seq<string>, i: nat, root: string, rank: map<string, nat>, bound: nat)
    requires Ranked(g, rank) && forall d | d in deps && d in g :: rank[d] < bound
    requires i <= |deps|
    ensures Check(g, deps, i, root, rank, bound) <==> exists d | d in deps[i..] :: LeadsTo(g, d, root)
    decreases bound, |deps| - i
  {
    if i < |deps| {
      var d := deps[i];
      if d != root && d in g {
        CheckFrom(g, g[d], 0, root, rank, rank[d]);
        ReachesStep(g, g[d], root);
        assert g[d][0..] == g[d];
      }
      CheckFrom(g, deps, i + 1, root, rank, bound);
      assert deps[i..] == [d] + deps[i + 1..];
      assert d in deps[i..];
    }
  }

  /** The check answers exactly whether the new message can reach itself. */
  lemma CheckExact(g: Graph, deps: seq<string>, root: string, rank: map<string, nat>, bound: nat)
    requires Ranked(g, rank) && forall d | d in deps && d in g :: rank[d] < bound
    ensures Check(g, deps, 0, root, rank, bound) <==> Reaches(g, deps, root)
  {
    CheckFrom(g, deps, 0, root, rank, bound);
    ReachesStep(g, deps, root);
    assert deps[0..] == deps;
  }

  // ---------- acyclic graphs and ranks ----------

  lemma {:induction false} RankFalls(g: Graph, rank: map<string, nat>, deps: seq<string>, path: seq<string>, goal: string, bound: nat)
    requires Ranked(g, rank) && IsPath(g, deps, path, goal) && goal in g
    requires forall d | d in deps && d in g :: rank[d] < bound
    ensures rank[goal] < bound
    decreases |path|
  {
    if |path| > 1 {
      PathHead(g, deps, path, goal);
      RankFalls(g, rank, g[path[0]], path[1..], goal, rank[path[0]]);
    }
  }

  lemma RankedIsAcyclic(g: Graph, rank: map<string, nat>)
    requires Ranked(g, rank)
    ensures Acyclic(g)
  {
    forall n | n in g
      ensures !Reaches(g, g[n], n)
    {
      if Reaches(g, g[n], n) {
        var path :| IsPath(g, g[n], path, n);
        RankFalls(g, rank, g[n], path, n, rank[n]);
      }
    }
  }

  /** A bound above every rank. */
  lemma {:induction false} Ceiling(rank: map<string, nat>, names: set<string>) returns (k: nat)
    requires names <= rank.Keys
    ensures forall n | n in names :: rank[n] < k
    decreases |names|
  {
    k := 0;
    if names != {} {
      var n :| n in names;
      k := Ceiling(rank, names - {n});
      if k <= rank[n] {
        k := rank[n] + 1;
      }
    }
  }

  /** Adding a message keeps every path. */
  lemma PathsStay(g: Graph, g': Graph, deps: seq<string>, goal: string)
    requires Reaches(g, deps, goal) && forall n | n in g :: n in g' && g'[n] == g[n]
    ensures Reaches(g', deps, goal)
  {
    var path :| IsPath(g, deps, path, goal);
    assert IsPath(g', deps, path, goal);
  }

  /** A new message that does not reach itself can be ranked: above everything that does not
      reach it, below everything that does. */
  lemma ExtendRank(g: Graph, rank: map<string, nat>, n: string, deps: seq<string>) returns (rank': map<string, nat>)
    requires Ranked(g, rank) && n !in g && !Reaches(g, deps, n)
    ensures Ranked(g[n := deps], rank')
  {
    var k := Ceiling(rank, g.Keys);
    var g' := g[n := deps];
    rank' := map x | x in g'.Keys :: if x == n then k else if Reaches(g, g[x], n) then k + 1 + rank[x] else rank[x];
    ReachesStep(g, deps, n);
    forall x, d | x in g' && d in g'[x] && d in g'
      ensures rank'[d] < rank'[x]
    {
      if x == n {
        assert !LeadsTo(g, d, n);
      } else {
        ReachesStep(g, g[x], n);
        assert LeadsTo(g, d, n) ==> Reaches(g, g[x], n);
      }
    }
  }

  /** Every acyclic graph can be ranked. */
  lemma {:induction false} AcyclicIsRanked(g: Graph) returns (rank: map<string, nat>)
    requires Acyclic(g)
    ensures Ranked(g, rank)
    decreases |g|
  {
    if |g| == 0 {
      rank := map[];
    } else {
      var n :| n in g;
      var h := g - {n};
      assert h.Keys == g.Keys - {n};
      forall m | m in h
        ensures !Reaches(h, h[m], m)
      {
        if Reaches(h, h[m], m) {
          PathsStay(h, g, h[m], m);
        }
      }
      if Reaches(h, g[n], n) {
        PathsStay(h, g, g[n], n);
      }
      rank := AcyclicIsRanked(h);
      rank := ExtendRank(h, rank, n, g[n]);
      assert h[n := g[n]] == g;
    }
  }

  /** A new message keeps the graph acyclic exactly when it passes the check. */
  lemma CheckKeepsAcyclic(g: Graph, n: string, deps: seq<string>, rank: map<string, nat>, bound: nat)
    requires Ranked(g, rank) && n !in g && forall d | d in deps && d in g :: rank[d] < bound
    ensures Acyclic(g[n := deps]) <==> !Check(g, deps, 0, n, rank, bound)
  {
    CheckExact(g, deps, n, rank, bound);
    if Reaches(g, deps, n) {
      PathsStay(g, g[n := deps], deps, n);
      assert n in g[n := deps];
    } else {
      var rank' := ExtendRank(g, rank, n, deps);
      RankedIsAcyclic(g[n := deps], rank');
    }
  }

  // ---------- the loop of ProtoFile.parse ----------

  /** `fallback`: what get_dependencies lists once the message is converted to its fallback type.
      That is nothing for callbacks, the fixed-count arrays for pointers, and all for static. */
  datatype Message = Message(name: string, deps: seq<string>, fallback: seq<string>)

  predicate Distinct(ms: seq<Message>) {
    forall i, j | 0 <= i < j < |ms| :: ms[i].name != ms[j].name
  }

  function Names(ms: seq<Message>): set<string> {
    set m | m in ms :: m.name
  }

  /** What the messages of a file come to, in order: one that would contain itself is converted. */
  ghost function Parsed(ms: seq<Message>): Graph {
    if ms == [] then map[]
    else
      var g, m := Parsed(ms[..|ms| - 1]), ms[|ms| - 1];
      g[m.name := if Reaches(g, m.deps, m.name) then m.fallback else m.deps]
  }

  /** A message that is converted does not contain itself any more. */
  ghost predicate Breaks(g: Graph, m: Message) {
    Reaches(g, m.deps, m.name) ==> !Reaches(g, m.fallback, m.name)
  }

  ghost predicate AllBreak(ms: seq<Message>) {
    ms == [] || (AllBreak(ms[..|ms| - 1]) && Breaks(Parsed(ms[..|ms| - 1]), ms[|ms| - 1]))
  }

  /** The graph is acyclic all the way, as the check needs it to be in order to end. */
  ghost predicate AcyclicThroughout(ms: seq<Message>) {
    Acyclic(Parsed(ms)) && (ms == [] || AcyclicThroughout(ms[..|ms| - 1]))
  }

  lemma {:induction false} ParsedNames(ms: seq<Message>)
    ensures Parsed(ms).Keys == Names(ms)
    decreases |ms|
  {
    if ms != [] {
      ParsedNames(ms[..|ms| - 1]);
      assert ms == ms[..|ms| - 1] + [ms[|ms| - 1]];
    }
  }

  lemma LastIsNew(ms: seq<Message>)
    requires Distinct(ms) && ms != []
    ensures Distinct(ms[..|ms| - 1]) && ms[|ms| - 1].name !in Parsed(ms[..|ms| - 1])
  {
    ParsedNames(ms[..|ms| - 1]);
  }

  lemma EntryKeepsAcyclic(g: Graph, n: string, deps: seq<string>)
    requires Acyclic(g) && n !in g
    ensures Acyclic(g[n := deps]) <==> !Reaches(g, deps, n)
  {
    var rank := AcyclicIsRanked(g);
    var bound := Ceiling(rank, rank.Keys);
    CheckKeepsAcyclic(g, n, deps, rank, bound);
    CheckExact(g, deps, n, rank, bound);
  }

  /** The graph stays acyclic exactly when every conversion breaks its cycle. */
  lemma {:induction false} ParsedExact(ms: seq<Message>)
    requires Distinct(ms)
    ensures AcyclicThroughout(ms) <==> AllBreak(ms)
    decreases |ms|
  {
    if ms != [] {
      var g, m := Parsed(ms[..|ms| - 1]), ms[|ms| - 1];
      LastIsNew(ms);
      ParsedExact(ms[..|ms| - 1]);
      if Acyclic(g) {
        EntryKeepsAcyclic(g, m.name, if Reaches(g, m.deps, m.name) then m.fallback else m.deps);
      }
    }
  }

  /** As conversion to callbacks does. */
  lemma {:induction false} CallbacksBreak(ms: seq<Message>)
    requires forall m | m in ms :: m.fallback == []
    ensures AllBreak(ms)
    decreases |ms|
  {
    if ms != [] {
      CallbacksBreak(ms[..|ms| - 1]);
      ReachesStep(Parsed(ms[..|ms| - 1]), [], ms[|ms| - 1].name);
    }
  }

  /** A message with itself as a static field, and static as its fallback. */
  lemma StaticFallback()
    ensures var m := Message("m", ["m"], ["m"]); !AllBreak([m]) && !Acyclic(Parsed([m]))
  {
    var m := Message("m", ["m"], ["m"]);
    var one := [m];
    assert one[..|one| - 1] == [];
    assert IsPath(map[], ["m"], ["m"], "m");
    ParsedExact(one);
  }

  lemma {:induction false} BreakPrefix(ms: seq<Message>, i: nat)
    requires AllBreak(ms) && i <= |ms|
    ensures AllBreak(ms[..i])
    decreases |ms|
  {
    if i == |ms| {
      assert ms[..i] == ms;
    } else {
      BreakPrefix(ms[..|ms| - 1], i);
      assert ms[..|ms| - 1][..i] == ms[..i];
    }
  }

  /** The messages of a file, in order; as long as conversions break their cycles. */
  method ParseMessages(ms: seq<Message>) returns (g: Graph)
    requires Distinct(ms) && AllBreak(ms)
    ensures g == Parsed(ms) && g.Keys == Names(ms) && Acyclic(g)
  {
    g := map[];
    ghost var rank := map[];
    for i := 0 to |ms|
      invariant g == Parsed(ms[..i]) && Ranked(g, rank)
    {
      g, rank := ParseMessage(ms, i, g, rank);
    }
    assert ms[..|ms|] == ms;
    ParsedNames(ms);
    RankedIsAcyclic(g, rank);
  }

  /** One message. */
  method ParseMessage(ms: seq<Message>, i: nat, g: Graph, ghost rank: map<string, nat>) returns (g': Graph, ghost rank': map<string, nat>)
    requires Distinct(ms) && AllBreak(ms) && i < |ms| && g == Parsed(ms[..i]) && Ranked(g, rank)
    ensures g' == Parsed(ms[..i + 1]) && Ranked(g', rank')
  {
    var m := ms[i];
    ghost var bound := Ceiling(rank, rank.Keys);
    BreakPrefix(ms, i + 1);
    LastIsNew(ms[..i + 1]);
    assert ms[..i + 1][..i] == ms[..i] && ms[..i + 1][i] == m;
    CheckExact(g, m.deps, m.name, rank, bound);
    var recursive := Check(g, m.deps, 0, m.name, rank, bound);
    var deps := if recursive then m.fallback else m.deps;
    rank' := ExtendRank(g, rank, m.name, deps);
    g' := g[m.name := deps];
  }

  // ---------- sort_dependencies ----------

  function GraphOf(ms: seq<Message>): Graph {
    if ms == [] then map[] else GraphOf(ms[..|ms| - 1])[ms[|ms| - 1].name := ms[|ms| - 1].deps]
  }

  lemma {:induction false} GraphOfIs(ms: seq<Message>)
    requires Distinct(ms)
    ensures GraphOf(ms).Keys == Names(ms)
    ensures forall m | m in ms :: GraphOf(ms)[m.name] == m.deps
  {
    if ms != [] {
      GraphOfIs(ms[..|ms| - 1]);
      assert ms == ms[..|ms| - 1] + [ms[|ms| - 1]];
    }
  }

  /** Every message comes after all the messages it embeds. */
  predicate Ordered(order: seq<Message>, names: set<string>) {
    forall i, d | 0 <= i < |order| && d in order[i].deps && d in names :: d in Names(order[..i])
  }

  /** Candidate `j` has no dependency that is still to be emitted. */
  predicate Free(remaining: seq<Message>, remainset: set<string>, j: nat)
    requires j < |remaining|
  {
    forall d | d in remaining[j].deps :: d !in remainset
  }

  /** The candidate loop: the first free one. */
  method FindFree(remaining: seq<Message>, remainset: set<string>, dependencies: map<string, set<string>>) returns (k: nat)
    requires forall m | m in remaining :: m.name in dependencies && dependencies[m.name] == set d | d in m.deps
    ensures k <= |remaining|
    ensures k < |remaining| ==> Free(remaining, remainset, k)
    ensures forall j | 0 <= j < k :: !Free(remaining, remainset, j)
  {
    k := 0;
    while k < |remaining|
      invariant k <= |remaining|
      invariant forall j | 0 <= j < k :: !Free(remaining, remainset, j)
    {
      var candidate := remaining[k];
      var waitsFor := remainset * dependencies[candidate.name];
      assert waitsFor == {} <==> Free(remaining, remainset, k) by {
        forall d
          ensures d in waitsFor <==> d in remainset && d in candidate.deps
        {
        }
      }
      if waitsFor == {} {
        return;
      }
      k := k + 1;
    }
  }

  /** The index that FindFree stops at, from `j` on. */
  function FirstFree(ms: seq<Message>, j: nat): (k: nat)
    requires j <= |ms|
    ensures j <= k <= |ms| && (k < |ms| ==> Free(ms, Names(ms), k)) && forall i | j <= i < k :: !Free(ms, Names(ms), i)
    decreases |ms| - j
  {
    if j == |ms| || Free(ms, Names(ms), j) then j else FirstFree(ms, j + 1)
  }

  function Without<T>(s: seq<T>, k: nat): (r: seq<T>)
    requires k < |s|
    ensures |r| == |s| - 1
    ensures forall i | 0 <= i < |r| :: r[i] == s[if i < k then i else i + 1]
  {
    s[..k] + s[k + 1..]
  }

  /** The next message: the first free one, or simply the first. */
  function NextOf(ms: seq<Message>): (k: nat)
    requires ms != []
    ensures k < |ms|
  {
    if FirstFree(ms, 0) == |ms| then 0 else FirstFree(ms, 0)
  }

  function Sorted(ms: seq<Message>): seq<Message>
    decreases |ms|
  {
    if ms == [] then [] else [ms[NextOf(ms)]] + Sorted(Without(ms, NextOf(ms)))
  }

  /** `a` is somewhere in front of `b`. */
  predicate InFront(order: seq<Message>, a: Message, b: Message) {
    exists p, q :: 0 <= p < q < |order| && order[p] == a && order[q] == b
  }

  /** Whatever `a` waits for, `b` waits for, too. */
  predicate WaitsForLess(names: set<string>, a: Message, b: Message) {
    forall d | d in a.deps && d in names :: d in b.deps
  }

  lemma {:induction false} SortedHasAll(ms: seq<Message>, m: Message)
    requires m in ms
    ensures m in Sorted(ms)
    decreases |ms|
  {
    var k := NextOf(ms);
    if m != ms[k] {
      var i :| 0 <= i < |ms| && ms[i] == m;
      assert Without(ms, k)[if i < k then i else i - 1] == m;
      SortedHasAll(Without(ms, k), m);
    }
  }

  lemma InFrontOfRest(m: Message, rest: seq<Message>, a: Message, b: Message)
    requires (a == m && b in rest) || InFront(rest, a, b)
    ensures InFront([m] + rest, a, b)
  {
    var out := [m] + rest;
    if a == m && b in rest {
      var q :| 0 <= q < |rest| && rest[q] == b;
      assert out[0] == a && out[q + 1] == b;
    } else {
      var p, q :| 0 <= p < q < |rest| && rest[p] == a && rest[q] == b;
      assert out[p + 1] == a && out[q + 1] == b;
    }
  }

  /** The sort is stable: of two messages the earlier one stays in front, unless it waits for a message that
      the later one does not wait for; so messages without dependencies keep their order.  With or without
      cycles. */
  lemma {:induction false} KeepsOrder(ms: seq<Message>, i: nat, j: nat)
    requires i < j < |ms| && WaitsForLess(Names(ms), ms[i], ms[j])
    ensures InFront(Sorted(ms), ms[i], ms[j])
    decreases |ms|
  {
    var k := NextOf(ms);
    var rest := Without(ms, k);
    LaterIsNotNext(ms, i, j);
    assert rest[j - 1] == ms[j] || rest[j] == ms[j];
    if k == i {
      assert rest[j - 1] == ms[j];
      SortedHasAll(rest, ms[j]);
    } else {
      var i', j' := if i < k then i else i - 1, if j < k then j else j - 1;
      assert rest[i'] == ms[i] && rest[j'] == ms[j];
      KeepsOrder(rest, i', j');
    }
    InFrontOfRest(ms[k], Sorted(rest), ms[i], ms[j]);
  }

  lemma LaterIsNotNext(ms: seq<Message>, i: nat, j: nat)
    requires i < j < |ms| && WaitsForLess(Names(ms), ms[i], ms[j])
    ensures NextOf(ms) != j
  {
    if Free(ms, Names(ms), j) {
      assert Free(ms, Names(ms), i);
    }
  }

  lemma {:induction false} Lowest(rank: map<string, nat>, ms: seq<Message>) returns (j: nat)
    requires ms != [] && forall m | m in ms :: m.name in rank
    ensures j < |ms| && forall i | 0 <= i < |ms| :: rank[ms[j].name] <= rank[ms[i].name]
  {
    j := 0;
    if |ms| > 1 {
      var k := Lowest(rank, ms[1..]);
      assert forall i | 1 <= i < |ms| :: rank[ms[k + 1].name] <= rank[ms[i].name] by {
        forall i | 1 <= i < |ms|
          ensures rank[ms[k + 1].name] <= rank[ms[i].name]
        {
          assert ms[1..][i - 1] == ms[i];
        }
      }
      if rank[ms[k + 1].name] < rank[ms[0].name] {
        j := k + 1;
      }
    }
  }

  /** In an acyclic graph some remaining message is always free. */
  lemma SomeFree(messages: seq<Message>, remaining: seq<Message>) returns (j: nat)
    requires Distinct(messages) && Acyclic(GraphOf(messages))
    requires remaining != [] && forall m | m in remaining :: m in messages
    ensures j < |remaining| && Free(remaining, Names(remaining), j)
  {
    GraphOfIs(messages);
    var rank := AcyclicIsRanked(GraphOf(messages));
    j := Lowest(rank, remaining);
  }

  lemma OrderedIsAcyclic(order: seq<Message>)
    requires Distinct(order) && Ordered(order, Names(order))
    ensures Acyclic(GraphOf(order))
  {
    GraphOfIs(order);
    var rank := Positions(order, |order|);
    var g := GraphOf(order);
    assert order[..|order|] == order;
    forall x, d | x in g && d in g[x] && d in g
      ensures rank[d] < rank[x]
    {
      PositionsFall(order, rank, x, d);
    }
    RankedIsAcyclic(g, rank);
  }

  lemma PositionsFall(order: seq<Message>, rank: map<string, nat>, x: string, d: string)
    requires Distinct(order) && Ordered(order, Names(order))
    requires rank.Keys == Names(order) && forall j | 0 <= j < |order| :: rank[order[j].name] == j
    requires x in GraphOf(order) && d in GraphOf(order)[x] && d in GraphOf(order)
    ensures d in rank && x in rank && rank[d] < rank[x]
  {
    GraphOfIs(order);
    var i :| 0 <= i < |order| && order[i].name == x;
    var m :| m in order[..i] && m.name == d;
  }

  /** Positions in the order serve as ranks. */
  lemma {:induction false} Positions(order: seq<Message>, n: nat) returns (rank: map<string, nat>)
    requires n <= |order| && Distinct(order)
    ensures rank.Keys == Names(order[..n]) && forall j | 0 <= j < n :: rank[order[j].name] == j
  {
    if n == 0 {
      rank := map[];
    } else {
      rank := Positions(order, n - 1);
      rank := rank[order[n - 1].name := n - 1];
      assert order[..n] == order[..n - 1] + [order[n - 1]];
    }
  }

  /** The first-level dependency sets. */
  method CollectDependencies(messages: seq<Message>) returns (dependencies: map<string, set<string>>)
    requires Distinct(messages)
    ensures forall m | m in messages :: m.name in dependencies && dependencies[m.name] == set d | d in m.deps
  {
    dependencies := map[];
    for i := 0 to |messages|
      invariant dependencies.Keys == Names(messages[..i])
      invariant forall m | m in messages[..i] :: dependencies[m.name] == set d | d in m.deps
    {
      assert messages[..i + 1] == messages[..i] + [messages[i]];
      dependencies := dependencies[messages[i].name := set d | d in messages[i].deps];
    }
    assert messages[..|messages|] == messages;
  }

  /** `order` and `remaining` share out the messages. */
  predicate Shared(messages: seq<Message>, order: seq<Message>, remaining: seq<Message>) {
    && multiset(order) + multiset(remaining) == multiset(messages)
    && Distinct(remaining) && Distinct(order)
    && Names(order) !! Names(remaining)
    && Names(order) + Names(remaining) == Names(messages)
    && forall m | m in remaining :: m in messages
  }

  /** sort_dependencies: always a permutation; ordered, without the circular branch, exactly
      when no message contains itself. */
  method SortDependencies(messages: seq<Message>) returns (order: seq<Message>, circular: bool)
    requires Distinct(messages)
    ensures multiset(order) == multiset(messages)
    ensures !circular ==> Ordered(order, Names(messages))
    ensures circular <==> !Acyclic(GraphOf(messages))
    ensures order == Sorted(messages)
  {
    var dependencies := CollectDependencies(messages);
    var remaining := messages;
    var remainset := Names(remaining);
    order, circular := [], false;
    while remaining != []
      invariant Shared(messages, order, remaining) && remainset == Names(remaining)
      invariant !circular ==> Ordered(order, Names(messages))
      invariant circular ==> !Acyclic(GraphOf(messages))
      invariant order + Sorted(remaining) == Sorted(messages)
      decreases |remaining|
    {
      var k := FindFree(remaining, remainset, dependencies);
      if k == |remaining| {
        NoneFree(messages, remaining);
        circular := true;
        k := 0;
      }
      SortedStep(order, remaining, k);
      SharedStep(messages, order, remaining, k, circular);
      var candidate := remaining[k];
      remaining := Without(remaining, k);
      remainset := remainset - {candidate.name};
      order := order + [candidate];
    }
    if !circular {
      OrderedIsAcyclic(order);
      SameGraph(order, messages);
    }
  }

  lemma NoneFree(messages: seq<Message>, remaining: seq<Message>)
    requires Distinct(messages) && remaining != [] && forall m | m in remaining :: m in messages
    requires forall j | 0 <= j < |remaining| :: !Free(remaining, Names(remaining), j)
    ensures !Acyclic(GraphOf(messages))
  {
    if Acyclic(GraphOf(messages)) {
      var j := SomeFree(messages, remaining);
    }
  }

  lemma SortedStep(order: seq<Message>, remaining: seq<Message>, k: nat)
    requires k < |remaining| && k == NextOf(remaining)
    ensures order + [remaining[k]] + Sorted(Without(remaining, k)) == order + Sorted(remaining)
  {
  }

  /** Moving message `k` over to the result. */
  lemma SharedStep(messages: seq<Message>, order: seq<Message>, remaining: seq<Message>, k: nat, circular: bool)
    requires k < |remaining| && Shared(messages, order, remaining)
    requires !circular ==> Ordered(order, Names(messages)) && Free(remaining, Names(remaining), k)
    ensures
      var rest, out := Without(remaining, k), order + [remaining[k]];
      && Shared(messages, out, rest) && Names(rest) == Names(remaining) - {remaining[k].name}
      && (!circular ==> Ordered(out, Names(messages)))
  {
    Removed(remaining, k);
    Appended(order, remaining[k]);
    if !circular {
      OrderGrows(order, remaining[k], Names(messages));
    }
  }

  lemma Removed(ms: seq<Message>, k: nat)
    requires k < |ms| && Distinct(ms)
    ensures
      var rest := Without(ms, k);
      && multiset(rest) == multiset(ms) - multiset{ms[k]}
      && Names(rest) == Names(ms) - {ms[k].name}
      && Distinct(rest) && forall m | m in rest :: m in ms
  {
    RemovedOnce(ms, k);
    RemovedElements(ms, k);
    assert ms[k] in ms;
  }

  lemma RemovedOnce<T>(s: seq<T>, k: nat)
    requires k < |s|
    ensures multiset(Without(s, k)) == multiset(s) - multiset{s[k]}
  {
    assert s == s[..k] + [s[k]] + s[k + 1..];
  }

  lemma RemovedElements(ms: seq<Message>, k: nat)
    requires k < |ms| && Distinct(ms)
    ensures forall m :: m in Without(ms, k) <==> m in ms && m.name != ms[k].name
  {
    var rest := Without(ms, k);
    forall m | m in ms && m.name != ms[k].name
      ensures m in rest
    {
      var i :| 0 <= i < |ms| && ms[i] == m;
      assert rest[if i < k then i else i - 1] == m;
    }
    forall i | 0 <= i < |rest|
      ensures rest[i].name != ms[k].name
    {
    }
  }

  lemma Appended(ms: seq<Message>, m: Message)
    requires Distinct(ms) && m.name !in Names(ms)
    ensures Distinct(ms + [m]) && Names(ms + [m]) == Names(ms) + {m.name} && multiset(ms + [m]) == multiset(ms) + multiset{m}
  {
  }

  lemma OrderGrows(order: seq<Message>, m: Message, names: set<string>)
    requires Ordered(order, names) && forall d | d in m.deps && d in names :: d in Names(order)
    ensures Ordered(order + [m], names)
  {
    var out := order + [m];
    forall i, d | 0 <= i < |out| && d in out[i].deps && d in names
      ensures d in Names(out[..i])
    {
      assert out[..i] == order[..i];
      assert order[..|order|] == order;
    }
  }

  lemma SameGraph(a: seq<Message>, b: seq<Message>)
    requires Distinct(a) && Distinct(b) && multiset(a) == multiset(b)
    ensures GraphOf(a) == GraphOf(b)
  {
    GraphOfIs(a);
    GraphOfIs(b);
    forall m
      ensures m in a <==> m in b
    {
      assert m in a <==> m in multiset(a);
      assert m in b <==> m in multiset(b);
    }
  }
}
