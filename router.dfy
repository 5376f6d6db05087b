/**
 * The segment trie router (router/router.rs).
 *
 * A router maps literal path segments to resolvers and keeps at most one placeholder
 * `fallback`; a resolver is either a nested router or a `Placeholder` leaf carrying a
 * string payload. Paths are split on `/` with empty segments dropped; a segment that
 * starts with `:` is a placeholder.
 */
module Routing {
  import opened Wrappers
  import opened Text

  datatype Router = Router(routes: map<string, PathResolver>, fallback: Option<PathResolver>)

  /** `PathResolver::Router(Box<Router>)` is `Sub`; `PathResolver::Placeholder(String)` is a leaf. */
  datatype PathResolver = Sub(router: Router) | Placeholder(value: string)

  /** `Router::new`: no literal routes and no fallback. */
  function New(): (r: Router)
    ensures r.routes == map[] && r.fallback == None
  {
    Router(map[], None)
  }

  predicate IsPlaceholder(segment: string) { StartsWith(segment, ':') }

  /** `path.split('/').filter(|s| !s.is_empty())`. */
  function Segments(path: string): (segs: seq<string>)
    ensures forall i :: 0 <= i < |segs| ==> segs[i] != "" && '/' !in segs[i]
  {
    NonEmpty(Split(path, '/'))
  }

  /** What a segment list can be: non-empty segments without `/`. */
  predicate IsSegmentList(segs: seq<string>)
  {
    forall i :: 0 <= i < |segs| ==> segs[i] != "" && '/' !in segs[i]
  }

  /** The path made of `segs`, joined with `/`. */
  function PathOf(segs: seq<string>): string { Join(segs, '/') }

  /** Re-splitting a joined segment list gives the list back. */
  lemma SegmentsOfPath(segs: seq<string>)
    requires IsSegmentList(segs)
    ensures Segments(PathOf(segs)) == segs
  {
    if |segs| == 0 {
    } else {
      SplitJoin(segs, '/');
      NonEmptyKeeps(segs);
    }
  }

  /**
   * Both `insert` and `resolve` take the first segment and hand on
   * `rest = segments.join("/")`; re-splitting `rest` gives exactly the remaining
   * segments, and `rest` is empty exactly when there are none. This justifies
   * modelling the recursion on segment lists.
   */
  lemma RestResplits(path: string)
    requires Segments(path) != []
    ensures Segments(PathOf(Segments(path)[1..])) == Segments(path)[1..]
    ensures PathOf(Segments(path)[1..]) == "" <==> |Segments(path)| == 1
  {
    var segs := Segments(path);
    SegmentsOfPath(segs[1..]);
    JoinEmpty(segs[1..], '/');
  }

  // ---------------------------------------------------------------------------
  // insert

  /** `Router::insert`: registers `resolver` at `path`, creating sub-routers as needed. */
  function Insert(r: Router, path: string, resolver: PathResolver): Router
  {
    InsertSegments(r, Segments(path), resolver)
  }

  /** An existing entry turned into a sub-router: a leaf is kept under the `""` key. */
  function Promote(existing: PathResolver): Router
  {
    match existing
    case Sub(sub) => sub
    case Placeholder(_) => Router(map["" := existing], None)
  }

  /** `insert` on the remaining segment list (router.rs:22-91, as written). */
  function InsertSegments(r: Router, segs: seq<string>, resolver: PathResolver): Router
    decreases |segs|
  {
    if |segs| == 0 then r
    else
      var segment := segs[0];
      var rest := segs[1..];
      if |rest| == 0 then
        if IsPlaceholder(segment) then r.(fallback := Some(resolver))
        else r.(routes := r.routes[segment := resolver])
      else if IsPlaceholder(segment) then
        match r.fallback
        case Some(Sub(_)) => r
        case Some(leaf) => r.(fallback := Some(Sub(InsertSegments(Promote(leaf), rest, resolver))))
        case None => r.(fallback := Some(Sub(InsertSegments(New(), rest, resolver))))
      else
        var sub := if segment in r.routes then Promote(r.routes[segment]) else New();
        r.(routes := r.routes[segment := Sub(InsertSegments(sub, rest, resolver))])
  }

  /** A path with no segments (`""`, `"/"`, `"//"`) leaves the router as it was. */
  lemma InsertNoSegments(r: Router, path: string, resolver: PathResolver)
    requires Segments(path) == []
    ensures Insert(r, path, resolver) == r
  {
  }

  lemma RootHasNoSegments()
    ensures Segments("") == [] && Segments("/") == []
  {
    assert Split("/", '/') == ["", ""];
  }

  /**
   * A one-segment literal path sets that literal entry, replacing whatever was there
   * (a sub-router too); a one-segment placeholder path replaces the fallback.
   */
  lemma InsertOneSegment(r: Router, path: string, resolver: PathResolver)
    requires |Segments(path)| == 1
    ensures var seg := Segments(path)[0];
      Insert(r, path, resolver)
      == if IsPlaceholder(seg) then r.(fallback := Some(resolver))
         else r.(routes := r.routes[seg := resolver])
  {
  }

  /** Inserting below a literal head changes only that literal entry. */
  lemma {:induction false} InsertLiteralFrame(r: Router, segs: seq<string>, resolver: PathResolver, k: string)
    requires |segs| >= 1 && !IsPlaceholder(segs[0]) && k != segs[0]
    ensures InsertSegments(r, segs, resolver).fallback == r.fallback
    ensures k in InsertSegments(r, segs, resolver).routes <==> k in r.routes
    ensures k in r.routes ==> InsertSegments(r, segs, resolver).routes[k] == r.routes[k]
  {
  }

  /** Inserting below a placeholder head never touches the literal entries. */
  lemma InsertPlaceholderFrame(r: Router, segs: seq<string>, resolver: PathResolver)
    requires |segs| >= 1 && IsPlaceholder(segs[0])
    ensures InsertSegments(r, segs, resolver).routes == r.routes
  {
  }

  /**
   * The empty arm at router.rs:50: when the fallback is already a sub-router, a
   * longer path whose head is a placeholder is dropped and the router is unchanged.
   */
  lemma PlaceholderUnderSubRouterDropped(r: Router, segs: seq<string>, resolver: PathResolver)
    requires |segs| >= 2 && IsPlaceholder(segs[0])
    requires r.fallback.Some? && r.fallback.value.Sub?
    ensures InsertSegments(r, segs, resolver) == r
  {
  }

  // ---------------------------------------------------------------------------
  // resolve

  /** `Router::resolve` (router.rs:95-119). */
  function Resolve(r: Router, path: string): Option<PathResolver>
  {
    ResolveSegments(r, Segments(path))
  }

  /**
   * `resolve` on the remaining segments. With no segments left the lookup key is `""`.
   * A literal entry wins over the fallback; a leaf ends the walk, whatever remains.
   */
  function ResolveSegments(r: Router, segs: seq<string>): Option<PathResolver>
  {
    var segment := if |segs| == 0 then "" else segs[0];
    var rest := if |segs| == 0 then [] else segs[1..];
    if segment in r.routes then
      match r.routes[segment]
      case Sub(sub) => ResolveSegments(sub, rest)
      case Placeholder(_) => Some(r.routes[segment])
    else
      match r.fallback
      case Some(Sub(sub)) => ResolveSegments(sub, rest)
      case Some(Placeholder(_)) => r.fallback
      case None => None
  }

  /** Whatever `resolve` returns is a leaf: it never hands back a sub-router. */
  lemma {:induction false} ResolveYieldsLeaf(r: Router, segs: seq<string>)
    ensures ResolveSegments(r, segs).Some? ==> ResolveSegments(r, segs).value.Placeholder?
  {
    var segment := if |segs| == 0 then "" else segs[0];
    var rest := if |segs| == 0 then [] else segs[1..];
    if segment in r.routes {
      if r.routes[segment].Sub? {
        ResolveYieldsLeaf(r.routes[segment].router, rest);
      }
    } else if r.fallback.Some? && r.fallback.value.Sub? {
      ResolveYieldsLeaf(r.fallback.value.router, rest);
    }
  }

  /** A fresh router resolves nothing. */
  lemma ResolveNew(segs: seq<string>)
    ensures ResolveSegments(New(), segs) == None
  {
  }

  /** At one node a literal match takes priority: the fallback is not consulted at all. */
  lemma LiteralBeatsFallback(r: Router, segs: seq<string>, other: Option<PathResolver>)
    requires (if |segs| == 0 then "" else segs[0]) in r.routes
    ensures ResolveSegments(r, segs) == ResolveSegments(r.(fallback := other), segs)
  {
  }

  /**
   * A leaf reached by literal or by fallback is returned even when segments remain;
   * with neither a literal match nor a fallback the result is `None`.
   */
  lemma LeafEndsWalk(r: Router, segment: string, rest: seq<string>)
    ensures segment in r.routes && r.routes[segment].Placeholder? ==>
      ResolveSegments(r, [segment] + rest) == Some(r.routes[segment])
    ensures segment !in r.routes && r.fallback.Some? && r.fallback.value.Placeholder? ==>
      ResolveSegments(r, [segment] + rest) == r.fallback
    ensures segment !in r.routes && r.fallback.None? ==> ResolveSegments(r, [segment] + rest) == None
  {
  }

  /** With no segments left, a router without a `""` entry falls back to its placeholder. */
  lemma EmptyPathUsesFallback(r: Router)
    requires "" !in r.routes && r.fallback.Some? && r.fallback.value.Placeholder?
    ensures ResolveSegments(r, []) == r.fallback
  {
  }

  // ---------------------------------------------------------------------------
  // insert, then resolve

  predicate AllLiteral(segs: seq<string>)
  {
    forall i :: 0 <= i < |segs| ==> !IsPlaceholder(segs[i])
  }

  /** For a path of literal segments, `insert(P, Placeholder(s))` then `resolve(P)` yields `Placeholder(s)`. */
  lemma {:induction false} InsertThenResolveLiteral(r: Router, segs: seq<string>, s: string)
    requires |segs| >= 1 && AllLiteral(segs)
    ensures ResolveSegments(InsertSegments(r, segs, Placeholder(s)), segs) == Some(Placeholder(s))
    decreases |segs|
  {
    if |segs| > 1 {
      var sub := if segs[0] in r.routes then Promote(r.routes[segs[0]]) else New();
      InsertThenResolveLiteral(sub, segs[1..], s);
    }
  }

  /** The same, stated on path strings. */
  lemma InsertThenResolvePath(r: Router, path: string, s: string)
    requires Segments(path) != [] && AllLiteral(Segments(path))
    ensures Resolve(Insert(r, path, Placeholder(s)), path) == Some(Placeholder(s))
  {
    InsertThenResolveLiteral(r, Segments(path), s);
  }

  /**
   * Promotion of a literal leaf: inserting a longer path through a literal entry that
   * holds a leaf moves the leaf under the new sub-router's `""` key, so the shorter
   * path still resolves to it.
   */
  lemma PromoteLiteralLeaf(r: Router, segs: seq<string>, resolver: PathResolver)
    requires |segs| >= 2 && IsSegmentList(segs) && !IsPlaceholder(segs[0])
    requires segs[0] in r.routes && r.routes[segs[0]].Placeholder?
    ensures var r' := InsertSegments(r, segs, resolver);
      && r'.routes[segs[0]].Sub?
      && "" in r'.routes[segs[0]].router.routes
      && r'.routes[segs[0]].router.routes[""] == r.routes[segs[0]]
      && ResolveSegments(r', segs[..1]) == Some(r.routes[segs[0]])
  {
    var leaf := r.routes[segs[0]];
    var rest := segs[1..];
    assert rest[0] == segs[1] != "";
    if IsPlaceholder(rest[0]) {
      InsertPlaceholderFrame(Promote(leaf), rest, resolver);
    } else {
      InsertLiteralFrame(Promote(leaf), rest, resolver, "");
    }
  }

  /**
   * Promotion of a placeholder leaf: the old fallback leaf goes under the new
   * sub-router's `""` key, so a one-segment path that reaches the fallback still
   * resolves to it.
   */
  lemma PromoteFallbackLeaf(r: Router, segs: seq<string>, resolver: PathResolver, segment: string)
    requires |segs| >= 2 && IsSegmentList(segs) && IsPlaceholder(segs[0])
    requires r.fallback.Some? && r.fallback.value.Placeholder?
    requires segment !in r.routes
    ensures var r' := InsertSegments(r, segs, resolver);
      && r'.fallback.Some? && r'.fallback.value.Sub?
      && "" in r'.fallback.value.router.routes
      && r'.fallback.value.router.routes[""] == r.fallback.value
      && ResolveSegments(r', [segment]) == r.fallback
  {
    var leaf := r.fallback.value;
    var rest := segs[1..];
    assert rest[0] == segs[1] != "";
    if IsPlaceholder(rest[0]) {
      InsertPlaceholderFrame(Promote(leaf), rest, resolver);
    } else {
      InsertLiteralFrame(Promote(leaf), rest, resolver, "");
    }
    assert [segment][1..] == [];
  }

  // ---------------------------------------------------------------------------
  // the test at router.rs:152-164

  /** A path written with a leading `/` has the same segments as without it. */
  lemma SegmentsOfRooted(segs: seq<string>)
    requires IsSegmentList(segs) && |segs| >= 1
    ensures Segments("/" + PathOf(segs)) == segs
  {
    SplitPrefix("", '/', PathOf(segs));
    assert "/" + PathOf(segs) == "" + ['/'] + PathOf(segs);
    SplitJoin(segs, '/');
    NonEmptyKeeps(segs);
  }

  lemma SegmentsOfTwo(a: string, b: string)
    requires a != "" && b != "" && '/' !in a && '/' !in b
    ensures Segments("/" + a + "/" + b) == [a, b]
  {
    assert [a, b][1..] == [b];
    assert Join([b], '/') == b;
    assert Join([a, b], '/') == a + "/" + b;
    SegmentsOfRooted([a, b]);
    assert "/" + a + "/" + b == "/" + (a + "/" + b);
  }

  lemma SegmentsOfThree(a: string, b: string, c: string)
    requires a != "" && b != "" && c != "" && '/' !in a && '/' !in b && '/' !in c
    ensures Segments("/" + a + "/" + b + "/" + c) == [a, b, c]
  {
    assert [b, c][1..] == [c];
    assert [a, b, c][1..] == [b, c];
    assert Join([c], '/') == c;
    assert Join([b, c], '/') == b + "/" + c;
    assert Join([a, b, c], '/') == a + "/" + (b + "/" + c);
    SegmentsOfRooted([a, b, c]);
    assert "/" + a + "/" + b + "/" + c == "/" + (a + "/" + (b + "/" + c));
  }

  // The router built by the test at router.rs:152-164, one insert at a time.
  function TestWorld(): Router
  {
    Router(map["" := Placeholder("Hello World"), "test" := Placeholder("Hello World test")], None)
  }

  function TestName(): Router
  {
    Router(map["" := Placeholder("Hello Name")], Some(Placeholder("Hello Name Age")))
  }

  function TestTree(): Router
  {
    Router(map["hello" := Sub(Router(map["world" := Sub(TestWorld())], Some(Sub(TestName()))))], None)
  }

  lemma TestInsertStep1()
    ensures InsertSegments(New(), ["hello", "world"], Placeholder("Hello World"))
         == Router(map["hello" := Sub(Router(map["world" := Placeholder("Hello World")], None))], None)
  {
    assert ["hello", "world"][1..] == ["world"];
    assert InsertSegments(New(), ["world"], Placeholder("Hello World"))
        == Router(map["world" := Placeholder("Hello World")], None);
  }

  lemma TestInsertStep2()
    ensures InsertSegments(Router(map["hello" := Sub(Router(map["world" := Placeholder("Hello World")], None))], None),
                           ["hello", "world", "test"], Placeholder("Hello World test"))
         == Router(map["hello" := Sub(Router(map["world" := Sub(TestWorld())], None))], None)
  {
    var hw := Placeholder("Hello World");
    var hwt := Placeholder("Hello World test");
    assert ["hello", "world", "test"][1..] == ["world", "test"];
    assert ["world", "test"][1..] == ["test"];
    assert InsertSegments(Promote(hw), ["test"], hwt) == TestWorld();
    var inner := Router(map["world" := hw], None);
    assert InsertSegments(inner, ["world", "test"], hwt) == Router(map["world" := Sub(TestWorld())], None);
  }

  lemma TestInsertStep3()
    ensures InsertSegments(Router(map["hello" := Sub(Router(map["world" := Sub(TestWorld())], None))], None),
                           ["hello", ":name"], Placeholder("Hello Name"))
         == Router(map["hello" := Sub(Router(map["world" := Sub(TestWorld())], Some(Placeholder("Hello Name"))))], None)
  {
    assert ["hello", ":name"][1..] == [":name"];
    assert IsPlaceholder(":name");
    var inner := Router(map["world" := Sub(TestWorld())], None);
    assert InsertSegments(inner, [":name"], Placeholder("Hello Name"))
        == Router(map["world" := Sub(TestWorld())], Some(Placeholder("Hello Name")));
  }

  lemma TestInsertStep4()
    ensures InsertSegments(Router(map["hello" := Sub(Router(map["world" := Sub(TestWorld())], Some(Placeholder("Hello Name"))))], None),
                           ["hello", ":name", ":age"], Placeholder("Hello Name Age"))
         == TestTree()
  {
    var hn := Placeholder("Hello Name");
    var hna := Placeholder("Hello Name Age");
    assert ["hello", ":name", ":age"][1..] == [":name", ":age"];
    assert [":name", ":age"][1..] == [":age"];
    assert IsPlaceholder(":name") && IsPlaceholder(":age");
    assert InsertSegments(Promote(hn), [":age"], hna) == TestName();
    var inner := Router(map["world" := Sub(TestWorld())], Some(hn));
    assert InsertSegments(inner, [":name", ":age"], hna)
        == Router(map["world" := Sub(TestWorld())], Some(Sub(TestName())));
  }

  lemma TestPathsSplit()
    ensures Segments("/hello/world") == ["hello", "world"]
    ensures Segments("/hello/world/test") == ["hello", "world", "test"]
    ensures Segments("/hello/:name") == ["hello", ":name"]
    ensures Segments("/hello/:name/:age") == ["hello", ":name", ":age"]
    ensures Segments("/hello/John") == ["hello", "John"]
    ensures Segments("/hello/John/20") == ["hello", "John", "20"]
  {
    SegmentsOfTwo("hello", "world");
    assert "/" + "hello" + "/" + "world" == "/hello/world";
    SegmentsOfThree("hello", "world", "test");
    assert "/" + "hello" + "/" + "world" + "/" + "test" == "/hello/world/test";
    SegmentsOfTwo("hello", ":name");
    assert "/" + "hello" + "/" + ":name" == "/hello/:name";
    SegmentsOfThree("hello", ":name", ":age");
    assert "/" + "hello" + "/" + ":name" + "/" + ":age" == "/hello/:name/:age";
    SegmentsOfTwo("hello", "John");
    assert "/" + "hello" + "/" + "John" == "/hello/John";
    SegmentsOfThree("hello", "John", "20");
    assert "/" + "hello" + "/" + "John" + "/" + "20" == "/hello/John/20";
  }

  lemma TestResolveWorld()
    ensures ResolveSegments(TestTree(), ["hello", "world"]) == Some(Placeholder("Hello World"))
    ensures ResolveSegments(TestTree(), ["hello", "world", "test"]) == Some(Placeholder("Hello World test"))
  {
    assert ["hello", "world"][1..] == ["world"] && ["world"][1..] == [];
    assert ["hello", "world", "test"][1..] == ["world", "test"] && ["world", "test"][1..] == ["test"];
    assert ["test"][1..] == [];
    assert ResolveSegments(TestWorld(), []) == Some(Placeholder("Hello World"));
    assert ResolveSegments(TestWorld(), ["test"]) == Some(Placeholder("Hello World test"));
  }

  lemma TestResolveName()
    ensures ResolveSegments(TestTree(), ["hello", "John"]) == Some(Placeholder("Hello Name"))
    ensures ResolveSegments(TestTree(), ["hello", "John", "20"]) == Some(Placeholder("Hello Name Age"))
  {
    assert ["hello", "John"][1..] == ["John"] && ["John"][1..] == [];
    assert ["hello", "John", "20"][1..] == ["John", "20"] && ["John", "20"][1..] == ["20"];
    assert "John" != "world" && "20" != "";
    assert ResolveSegments(TestName(), []) == Some(Placeholder("Hello Name"));
    assert ResolveSegments(TestName(), ["20"]) == Some(Placeholder("Hello Name Age"));
  }

  /** The four inserts of the test build exactly `TestTree()`. */
  lemma TestBuild()
    ensures
      var r1 := Insert(New(), "/hello/world", Placeholder("Hello World"));
      var r2 := Insert(r1, "/hello/world/test", Placeholder("Hello World test"));
      var r3 := Insert(r2, "/hello/:name", Placeholder("Hello Name"));
      Insert(r3, "/hello/:name/:age", Placeholder("Hello Name Age")) == TestTree()
  {
    TestPathsSplit();
    var r1 := Insert(New(), "/hello/world", Placeholder("Hello World"));
    TestInsertStep1();
    assert r1 == Router(map["hello" := Sub(Router(map["world" := Placeholder("Hello World")], None))], None);
    var r2 := Insert(r1, "/hello/world/test", Placeholder("Hello World test"));
    TestInsertStep2();
    assert r2 == Router(map["hello" := Sub(Router(map["world" := Sub(TestWorld())], None))], None);
    var r3 := Insert(r2, "/hello/:name", Placeholder("Hello Name"));
    TestInsertStep3();
    assert r3 == Router(map["hello" := Sub(Router(map["world" := Sub(TestWorld())], Some(Placeholder("Hello Name"))))], None);
    TestInsertStep4();
  }

  lemma TestLookups()
    ensures Resolve(TestTree(), "/hello/world") == Some(Placeholder("Hello World"))
    ensures Resolve(TestTree(), "/hello/world/test") == Some(Placeholder("Hello World test"))
    ensures Resolve(TestTree(), "/hello/John") == Some(Placeholder("Hello Name"))
    ensures Resolve(TestTree(), "/hello/John/20") == Some(Placeholder("Hello Name Age"))
  {
    TestPathsSplit();
    TestResolveWorld();
    TestResolveName();
  }

  /** After the four inserts of the test, the four paths resolve to their own payloads. */
  lemma TestRouter()
    ensures
      var r1 := Insert(New(), "/hello/world", Placeholder("Hello World"));
      var r2 := Insert(r1, "/hello/world/test", Placeholder("Hello World test"));
      var r3 := Insert(r2, "/hello/:name", Placeholder("Hello Name"));
      var r4 := Insert(r3, "/hello/:name/:age", Placeholder("Hello Name Age"));
      && Resolve(r4, "/hello/world").Some?
      && ResolverEq(Resolve(r4, "/hello/world").value, Placeholder("Hello World"))
      && Resolve(r4, "/hello/world/test").Some?
      && ResolverEq(Resolve(r4, "/hello/world/test").value, Placeholder("Hello World test"))
      && Resolve(r4, "/hello/John").Some?
      && ResolverEq(Resolve(r4, "/hello/John").value, Placeholder("Hello Name"))
      && Resolve(r4, "/hello/John/20").Some?
      && ResolverEq(Resolve(r4, "/hello/John/20").value, Placeholder("Hello Name Age"))
  {
    TestBuild();
    TestLookups();
  }

  // ---------------------------------------------------------------------------
  // PartialEq

  /** `PartialEq for PathResolver`: only two leaves with equal payloads compare equal. */
  predicate ResolverEq(a: PathResolver, b: PathResolver)
  {
    match (a, b)
    case (Placeholder(x), Placeholder(y)) => x == y
    case _ => false
  }

  /**
   * The equality is symmetric and transitive, agrees with `==` on leaves, and is not
   * reflexive: a sub-router is not equal even to itself.
   */
  lemma ResolverEqLaws(a: PathResolver, b: PathResolver, c: PathResolver)
    ensures ResolverEq(a, b) <==> a.Placeholder? && a == b
    ensures ResolverEq(a, b) ==> ResolverEq(b, a)
    ensures ResolverEq(a, b) && ResolverEq(b, c) ==> ResolverEq(a, c)
    ensures a.Sub? ==> !ResolverEq(a, a)
  {
  }

  // ---------------------------------------------------------------------------
  // The placeholder branch of `insert` (router.rs:47-64)
  //
  // When a node's fallback is already a sub-router, the `Some(PathResolver::Router(_))`
  // arm at router.rs:50 does nothing, so a second multi-segment path through the same
  // placeholder is silently lost. The literal branch (router.rs:66-89) instead descends
  // into the existing sub-router; `InsertIntended` does the same for the fallback.

  /** No literal key anywhere in the trie starts with `:` (insert never stores one). */
  predicate WellFormed(r: Router)
  {
    && (forall k :: k in r.routes ==> !IsPlaceholder(k))
    && (forall k :: k in r.routes && r.routes[k].Sub? ==> WellFormed(r.routes[k].router))
    && (r.fallback.Some? && r.fallback.value.Sub? ==> WellFormed(r.fallback.value.router))
  }

  /** `insert` with the placeholder branch descending into an existing sub-router. */
  function InsertIntended(r: Router, segs: seq<string>, resolver: PathResolver): Router
    decreases |segs|
  {
    if |segs| == 0 then r
    else
      var segment := segs[0];
      var rest := segs[1..];
      if |rest| == 0 then
        if IsPlaceholder(segment) then r.(fallback := Some(resolver))
        else r.(routes := r.routes[segment := resolver])
      else if IsPlaceholder(segment) then
        var sub := if r.fallback.Some? then Promote(r.fallback.value) else New();
        r.(fallback := Some(Sub(InsertIntended(sub, rest, resolver))))
      else
        var sub := if segment in r.routes then Promote(r.routes[segment]) else New();
        r.(routes := r.routes[segment := Sub(InsertIntended(sub, rest, resolver))])
  }

  lemma WellFormedNew()
    ensures WellFormed(New())
  {
  }

  lemma PromoteWellFormed(existing: PathResolver)
    requires existing.Sub? ==> WellFormed(existing.router)
    ensures WellFormed(Promote(existing))
  {
  }

  /** Both versions of `insert` keep the trie well formed. */
  lemma {:induction false} InsertIntendedWellFormed(r: Router, segs: seq<string>, resolver: PathResolver)
    requires WellFormed(r) && (resolver.Sub? ==> WellFormed(resolver.router))
    ensures WellFormed(InsertIntended(r, segs, resolver))
    decreases |segs|
  {
    if |segs| >= 2 {
      if IsPlaceholder(segs[0]) {
        var sub := if r.fallback.Some? then Promote(r.fallback.value) else New();
        if r.fallback.Some? { PromoteWellFormed(r.fallback.value); }
        InsertIntendedWellFormed(sub, segs[1..], resolver);
      } else {
        var sub := if segs[0] in r.routes then Promote(r.routes[segs[0]]) else New();
        if segs[0] in r.routes { PromoteWellFormed(r.routes[segs[0]]); }
        InsertIntendedWellFormed(sub, segs[1..], resolver);
      }
    }
  }

  lemma {:induction false} InsertSegmentsWellFormed(r: Router, segs: seq<string>, resolver: PathResolver)
    requires WellFormed(r) && (resolver.Sub? ==> WellFormed(resolver.router))
    ensures WellFormed(InsertSegments(r, segs, resolver))
    decreases |segs|
  {
    if |segs| >= 2 {
      if IsPlaceholder(segs[0]) {
        match r.fallback
        case Some(Sub(_)) =>
        case Some(leaf) =>
          PromoteWellFormed(leaf);
          InsertSegmentsWellFormed(Promote(leaf), segs[1..], resolver);
        case None =>
          InsertSegmentsWellFormed(New(), segs[1..], resolver);
      } else {
        var sub := if segs[0] in r.routes then Promote(r.routes[segs[0]]) else New();
        if segs[0] in r.routes { PromoteWellFormed(r.routes[segs[0]]); }
        InsertSegmentsWellFormed(sub, segs[1..], resolver);
      }
    }
  }

  /**
   * With the corrected branch, every registered pattern resolves to its own leaf,
   * placeholders included: a placeholder segment is never a literal key, so the walk
   * takes the fallback that the insert just wrote.
   */
  lemma {:induction false} IntendedInsertResolves(r: Router, segs: seq<string>, s: string)
    requires WellFormed(r) && |segs| >= 1
    ensures ResolveSegments(InsertIntended(r, segs, Placeholder(s)), segs) == Some(Placeholder(s))
    decreases |segs|
  {
    var segment := segs[0];
    var rest := segs[1..];
    if |rest| >= 1 {
      if IsPlaceholder(segment) {
        var sub := if r.fallback.Some? then Promote(r.fallback.value) else New();
        if r.fallback.Some? { PromoteWellFormed(r.fallback.value); }
        IntendedInsertResolves(sub, rest, s);
        assert segment !in InsertIntended(r, segs, Placeholder(s)).routes;
      } else {
        var sub := if segment in r.routes then Promote(r.routes[segment]) else New();
        if segment in r.routes { PromoteWellFormed(r.routes[segment]); }
        IntendedInsertResolves(sub, rest, s);
      }
    } else if IsPlaceholder(segment) {
      assert segment !in InsertIntended(r, segs, Placeholder(s)).routes;
    }
  }

  /** On paths made only of literal segments both versions build the same trie. */
  lemma {:induction false} InsertIntendedAgreesOnLiteral(r: Router, segs: seq<string>, resolver: PathResolver)
    requires AllLiteral(segs)
    ensures InsertIntended(r, segs, resolver) == InsertSegments(r, segs, resolver)
    decreases |segs|
  {
    if |segs| >= 2 {
      var sub := if segs[0] in r.routes then Promote(r.routes[segs[0]]) else New();
      assert AllLiteral(segs[1..]);
      InsertIntendedAgreesOnLiteral(sub, segs[1..], resolver);
    }
  }

  /**
   * The as-written `insert` loses `/:a/c` once `/:a/b` is registered: the second
   * insert hits the empty arm at router.rs:50, and the pattern itself no longer
   * resolves, while the corrected version resolves it.
   */
  lemma LostPlaceholderInsert()
    ensures
      var written := InsertSegments(InsertSegments(New(), [":a", "b"], Placeholder("b")), [":a", "c"], Placeholder("c"));
      ResolveSegments(written, [":a", "c"]) == None && ResolveSegments(written, ["x", "c"]) == None
    ensures
      var intended := InsertIntended(InsertIntended(New(), [":a", "b"], Placeholder("b")), [":a", "c"], Placeholder("c"));
      ResolveSegments(intended, [":a", "c"]) == Some(Placeholder("c"))
  {
    assert IsPlaceholder(":a");
    assert [":a", "b"][1..] == ["b"] && [":a", "c"][1..] == ["c"];
    assert ["x", "c"][1..] == ["c"] && ["c"][1..] == [];
    var one := InsertSegments(New(), [":a", "b"], Placeholder("b"));
    assert one == Router(map[], Some(Sub(Router(map["b" := Placeholder("b")], None))));
    var written := InsertSegments(one, [":a", "c"], Placeholder("c"));
    assert written == one;
    assert ResolveSegments(Router(map["b" := Placeholder("b")], None), ["c"]) == None;
    WellFormedNew();
    InsertIntendedWellFormed(New(), [":a", "b"], Placeholder("b"));
    IntendedInsertResolves(InsertIntended(New(), [":a", "b"], Placeholder("b")), [":a", "c"], "c");
  }

  /** The same loss, stated on the path strings of `insert` and `resolve`. */
  lemma LostPlaceholderInsertPaths()
    ensures Resolve(Insert(Insert(New(), "/:a/b", Placeholder("b")), "/:a/c", Placeholder("c")), "/x/c") == None
  {
    SegmentsOfTwo(":a", "b");
    assert "/" + ":a" + "/" + "b" == "/:a/b";
    SegmentsOfTwo(":a", "c");
    assert "/" + ":a" + "/" + "c" == "/:a/c";
    SegmentsOfTwo("x", "c");
    assert "/" + "x" + "/" + "c" == "/x/c";
    LostPlaceholderInsert();
  }

  // ---------------------------------------------------------------------------
  // The router object that `insert` updates in place

  /**
   * A top-level `Router` as the host program holds it: `insert` takes `&mut self` and
   * rewrites `routes` and `fallback`. Sub-routers are owned boxes that nothing else
   * can reach, so they are values here.
   */
  class LiveRouter {
    var routes: map<string, PathResolver>
    var fallback: Option<PathResolver>

    /** The router value this object currently holds. */
    function Value(): Router
      reads this
    {
      Router(routes, fallback)
    }

    /** `Router::new`. */
    constructor ()
      ensures Value() == New()
    {
      routes := map[];
      fallback := None;
    }

    /** `Router::insert` (router.rs:22-91), updating this router in place. */
    method Insert(path: string, resolver: PathResolver)
      modifies this
      ensures Value() == InsertSegments(old(Value()), Segments(path), resolver)
    {
      var segs := Segments(path);
      if |segs| == 0 {
        return;
      }
      var segment := segs[0];
      var rest := segs[1..];
      if |rest| == 0 {
        if IsPlaceholder(segment) {
          fallback := Some(resolver);
        } else {
          routes := routes[segment := resolver];
        }
        return;
      }
      if IsPlaceholder(segment) {
        match fallback {
          case Some(Sub(_)) =>
          case Some(leaf) =>
            fallback := Some(Sub(InsertSegments(Promote(leaf), rest, resolver)));
          case None =>
            fallback := Some(Sub(InsertSegments(New(), rest, resolver)));
        }
      } else {
        var sub := if segment in routes then Promote(routes[segment]) else New();
        routes := routes[segment := Sub(InsertSegments(sub, rest, resolver))];
      }
    }

    /** `Router::resolve` (router.rs:95-119) on the current value. */
    function Resolve(path: string): (found: Option<PathResolver>)
      reads this
      ensures found.Some? ==> found.value.Placeholder?
    {
      ResolveYieldsLeaf(Value(), Segments(path));
      ResolveSegments(Value(), Segments(path))
    }
  }
}
