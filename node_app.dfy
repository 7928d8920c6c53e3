// The node application's route table: handler chains stored by full request
// name, default chains stored by router sequence number, and the dispatch
// that picks between them.
module NodeApp {
  import opened Wrappers
  import opened Bytes
  import opened Ordering
  import opened Buckets
  import opened AppCacheBucket

  /**
   * A handler in a chain: one the application registered (known by an
   * identity), the app's dispatchDefaults, or the closure routeHandle builds
   * around a router name and a chain.
   */
  datatype HandleFunc = Fn(id: nat) | DispatchDefaults | RouteHandle(prefix: bytes, handles: seq<HandleFunc>)

  /** AppHandleChainItem keyed by request name (routes) or by router sequence (defaults). */
  datatype RouteItem = RouteItem(handles: seq<HandleFunc>, code: bytes)
  datatype DefaultItem = DefaultItem(handles: seq<HandleFunc>, code: int)

  function RouteCode(item: RouteItem): bytes {
    item.code
  }

  function DefaultCode(item: DefaultItem): int {
    item.code
  }

  ghost predicate KeyedByRouteCode(key: RouteItem -> bytes) {
    forall it :: key(it) == it.code
  }

  ghost predicate KeyedByDefaultCode(key: DefaultItem -> int) {
    forall it :: key(it) == it.code
  }

  /** What a dispatch step does: run a chain of handlers, or call next. */
  datatype Outcome = RunChain(handles: seq<HandleFunc>) | CallNext

  /** The route name Handle registers: the router's name in front, when it has one. */
  function FullName(routerName: bytes, name: bytes): (r: bytes)
    ensures |routerName| > 0 ==> routerName <= r && r[|routerName|..] == name
    ensures |routerName| == 0 ==> r == name
  {
    if |routerName| > 0 then routerName + name else name
  }

  /** The closure routeHandle returns, applied to a request name. */
  function RouteHandleRun(prefix: bytes, handles: seq<HandleFunc>, requestName: bytes): (o: Outcome)
  {
    if prefix <= requestName then RunChain(handles) else CallNext
  }

  /** dispatchDefaults: the merged defaults, or next when there are none. */
  function DispatchDefaultsRun(defaults: seq<HandleFunc>): (o: Outcome)
  {
    if |defaults| <= 0 then CallNext else RunChain(defaults)
  }

  /** The default chain a router registers, before setDefaults stores or drops it. */
  function RouterDefaults(routerName: bytes, middlewares: seq<HandleFunc>, handles: seq<HandleFunc>): (r: seq<HandleFunc>)
    ensures handles == [] <==> r == []
    ensures |routerName| == 0 ==> r == if handles == [] then [] else middlewares + handles
    ensures |routerName| > 0 && handles != [] ==> r == [RouteHandle(routerName, middlewares + handles)]
  {
    if |handles| > 0 then
      if |routerName| > 0 then [RouteHandle(routerName, middlewares + handles)] else middlewares + handles
    else []
  }

  /**
   * A named router's defaults run for every request under its name, so for
   * every route the router registered, and for no other request.
   */
  lemma RouterDefaultsCoverItsRoutes(routerName: bytes, middlewares: seq<HandleFunc>, handles: seq<HandleFunc>, name: bytes, requestName: bytes)
    requires |routerName| > 0 && handles != []
    ensures |RouterDefaults(routerName, middlewares, handles)| == 1
    ensures RouteHandleRun(routerName, middlewares + handles, FullName(routerName, name)) == RunChain(middlewares + handles)
    ensures RouteHandleRun(routerName, middlewares + handles, requestName).RunChain? <==> routerName <= requestName
  {
  }

  /** The handlers of the default items, concatenated in slice order. */
  function ConcatDefaults(items: seq<DefaultItem>): (r: seq<HandleFunc>)
    ensures items == [] ==> r == []
    ensures |items| == 1 ==> r == items[0].handles
  {
    if items == [] then [] else ConcatDefaults(items[..|items| - 1]) + items[|items| - 1].handles
  }

  /** The handlers of two runs of default items are those of the first run, then those of the second. */
  lemma {:induction false} ConcatDefaultsAppend(a: seq<DefaultItem>, b: seq<DefaultItem>)
    ensures ConcatDefaults(a + b) == ConcatDefaults(a) + ConcatDefaults(b)
    decreases |b|
  {
    if b == [] {
      assert a + b == a;
    } else {
      var init := b[..|b| - 1];
      assert (a + b)[..|a + b| - 1] == a + init;
      assert (a + b)[|a + b| - 1] == b[|b| - 1];
      ConcatDefaultsAppend(a, init);
    }
  }

  /** Each default item's handlers appear, in order, after those of the items before it. */
  lemma {:induction false} ConcatDefaultsPrefix(items: seq<DefaultItem>, i: nat)
    requires i <= |items|
    ensures ConcatDefaults(items[..i]) <= ConcatDefaults(items)
    decreases |items|
  {
    if i < |items| {
      assert items[..|items| - 1][..i] == items[..i];
      ConcatDefaultsPrefix(items[..|items| - 1], i);
    } else {
      assert items[..i] == items;
    }
  }

  /** Which group the fluent calls hand back: the router itself, or the app for the root router. */
  datatype Group = RouterGroup(router: AppRouter) | AppGroup(app: App)

  function ReturnGroup(router: AppRouter): (g: Group)
    ensures g.RouterGroup? <==> router.sequence > 0
    ensures g.RouterGroup? ==> g.router == router
    ensures g.AppGroup? ==> g.app == router.app
  {
    if router.sequence > 0 then RouterGroup(router) else AppGroup(router.app)
  }

  class App {
    /** The embedded root router; nil after Init(true). */
    var root: AppRouter?
    const routes: SimpleBucket<bytes, RouteItem>
    var defaults: seq<HandleFunc>
    /** defaults_: nil after Init(true). */
    var defaultsBucket: SimpleBucket?<int, DefaultItem>
    /** seq_, a uint16. */
    var sequence: int

    ghost predicate Valid()
      reads this, routes, defaultsBucket
    {
      && RoutesValid(routes)
      && (defaultsBucket != null ==> DefaultsValid(defaultsBucket))
      && 0 <= sequence < U16
    }

    /** NewApp: a root router with sequence 0 and no name, and empty tables. */
    constructor ()
      ensures Valid() && defaultsBucket != null
      ensures routes.items == [] && defaultsBucket.items == [] && defaults == [] && sequence == 0
      ensures root != null && root.app == this && root.sequence == 0 && root.name == [] && root.middlewares == []
      ensures fresh(routes) && fresh(defaultsBucket) && fresh(root)
    {
      var r := NewRoutes();
      var d := NewDefaults();
      routes := r;
      defaultsBucket := d;
      defaults := [];
      sequence := 0;
      new;
      root := new AppRouter(this, 0, []);
    }

    /**
     * route: the chain followed by dispatchDefaults, stored under name. A
     * name already stored makes Store fail and route panic, reported here as
     * the panic value.
     */
    method Route(name: bytes, handles: seq<HandleFunc>) returns (panicked: Option<string>)
      requires Valid()
      modifies routes
      ensures Valid()
      ensures panicked.Some? <==> name in old(routes.Contents())
      ensures panicked.Some? ==> panicked.value == DuplicateError && routes.items == old(routes.items)
      ensures panicked.None? ==>
        routes.Contents() == old(routes.Contents())[name := RouteItem(handles + [DispatchDefaults], name)]
    {
      ghost var bucket := defaultsBucket;
      assert bucket != null ==> bucket as object != routes as object;
      panicked := StoreRoute(routes, RouteItem(handles + [DispatchDefaults], name));
      assert bucket != null ==> unchanged(bucket);
    }

    /** setDefaults: a non-empty chain replaces the router's entry; an empty one removes it. */
    method SetDefaults(routerSeq: int, handles: seq<HandleFunc>)
      requires Valid() && defaultsBucket != null
      modifies defaultsBucket
      ensures Valid()
      ensures |handles| > 0 ==> defaultsBucket.Contents() == old(defaultsBucket.Contents())[routerSeq := DefaultItem(handles, routerSeq)]
      ensures |handles| == 0 ==> defaultsBucket.Contents() == old(defaultsBucket.Contents()) - {routerSeq}
    {
      UpdateDefaults(defaultsBucket, routerSeq, handles);
    }

    /** newRoute: the sequence counter moves on (wrapping as a uint16) and a new router takes it. */
    method NewRoute(name: bytes) returns (router: AppRouter)
      requires Valid()
      modifies this
      ensures Valid() && sequence == Wrap(old(sequence) + 1, U16)
      ensures root == old(root) && defaults == old(defaults) && defaultsBucket == old(defaultsBucket)
      ensures fresh(router) && router.app == this && router.sequence == sequence && router.name == name && router.middlewares == []
    {
      sequence := Wrap(sequence + 1, U16);
      router := new AppRouter(this, sequence, name);
    }

    /**
     * Init: the default chains are appended in the bucket's order, which is
     * ascending router sequence; Init(true) then drops the root router and
     * the defaults bucket.
     */
    method Init(extreme: bool)
      requires Valid() && defaultsBucket != null
      modifies this
      ensures Valid()
      ensures defaults == old(defaults) + ConcatDefaults(old(defaultsBucket.items))
      ensures extreme ==> root == null && defaultsBucket == null
      ensures !extreme ==> root == old(root) && defaultsBucket == old(defaultsBucket)
      ensures sequence == old(sequence)
    {
      var items := defaultsBucket.Items();
      defaults := AppendDefaults(defaults, items);
      if extreme {
        root := null;
        defaultsBucket := null;
      }
    }

    /** Run: the chain stored under the request's name, otherwise dispatchDefaults. */
    method Run(requestName: bytes) returns (o: Outcome)
      requires Valid()
      ensures requestName in routes.Contents() ==> o == RunChain(routes.Contents()[requestName].handles)
      ensures requestName !in routes.Contents() ==> o == DispatchDefaultsRun(defaults)
    {
      var route := routes.Search(requestName);
      if route.Some? {
        return RunChain(route.value.handles);
      }
      return DispatchDefaultsRun(defaults);
    }
  }

  ghost predicate RoutesValid(b: SimpleBucket<bytes, RouteItem>)
    reads b
  {
    b.Valid() && KeyedByRouteCode(b.key) && (forall x, y :: b.cmp(x, y) == Compare(x, y))
  }

  ghost predicate DefaultsValid(b: SimpleBucket<int, DefaultItem>)
    reads b
  {
    b.Valid() && KeyedByDefaultCode(b.key) && (forall x, y :: b.cmp(x, y) == IntCompare(x, y))
  }

  /** The routes bucket NewApp makes: empty, keyed by route code and ordered by bytes.Compare. */
  method NewRoutes() returns (b: SimpleBucket<bytes, RouteItem>)
    ensures fresh(b) && RoutesValid(b) && b.items == []
  {
    CompareTotal();
    b := new SimpleBucket<bytes, RouteItem>(RouteCode, Compare);
  }

  /** The defaults bucket NewApp makes: empty, keyed by router sequence and ordered by cmp.Compare. */
  method NewDefaults() returns (b: SimpleBucket<int, DefaultItem>)
    ensures fresh(b) && DefaultsValid(b) && b.items == []
  {
    IntCompareTotal();
    b := new SimpleBucket<int, DefaultItem>(DefaultCode, IntCompare);
  }

  /** The Store in route, on the routes bucket alone. */
  method StoreRoute(b: SimpleBucket<bytes, RouteItem>, route: RouteItem) returns (err: Option<string>)
    requires RoutesValid(b)
    modifies b
    ensures RoutesValid(b)
    ensures err.Some? <==> route.code in old(b.Contents())
    ensures err.Some? ==> err.value == DuplicateError && b.items == old(b.items)
    ensures err.None? ==> b.Contents() == old(b.Contents())[route.code := route]
  {
    err := b.Store(route);
  }

  /** The body of setDefaults, on the defaults bucket alone. */
  method UpdateDefaults(b: SimpleBucket<int, DefaultItem>, routerSeq: int, handles: seq<HandleFunc>)
    requires DefaultsValid(b)
    modifies b
    ensures DefaultsValid(b)
    ensures |handles| > 0 ==> b.Contents() == old(b.Contents())[routerSeq := DefaultItem(handles, routerSeq)]
    ensures |handles| == 0 ==> b.Contents() == old(b.Contents()) - {routerSeq}
  {
    if |handles| > 0 {
      var _ := b.Swap(DefaultItem(handles, routerSeq));
      return;
    }
    var item := b.Search(routerSeq);
    if item.Some? {
      KeyOfDefault(b.items, b.key, routerSeq);
      b.Delete(item.value);
    } else {
      RemoveAbsentDefault(b.Contents(), routerSeq);
    }
  }

  /** The loop of Init: the handlers of each default item appended in turn. */
  method AppendDefaults(defaults: seq<HandleFunc>, items: seq<DefaultItem>) returns (r: seq<HandleFunc>)
    ensures r == defaults + ConcatDefaults(items)
  {
    r := defaults;
    var i := 0;
    while i < |items|
      invariant 0 <= i <= |items|
      invariant r == defaults + ConcatDefaults(items[..i])
    {
      assert items[..i + 1][..i] == items[..i];
      r := r + items[i].handles;
      i := i + 1;
    }
    assert items[..i] == items;
  }

  /** The default items come in strictly ascending router sequence. */
  lemma DefaultsInSequenceOrder(b: SimpleBucket<int, DefaultItem>)
    requires DefaultsValid(b)
    ensures forall i, j :: 0 <= i < j < |b.items| ==> b.items[i].code < b.items[j].code
  {
    forall i, j | 0 <= i < j < |b.items| ensures b.items[i].code < b.items[j].code {
      assert b.cmp(b.key(b.items[i]), b.key(b.items[j])) < 0;
    }
  }

  lemma KeyOfDefault(items: seq<DefaultItem>, key: DefaultItem -> int, k: int)
    requires DistinctKeys(items, key) && KeyedByDefaultCode(key) && k in ToMap(items, key)
    ensures key(ToMap(items, key)[k]) == k
  {
    var i := ToMapHas(items, key, k);
  }

  lemma RemoveAbsentDefault(c: map<int, DefaultItem>, k: int)
    requires k !in c
    ensures c - {k} == c
  {
  }

  class AppRouter {
    const sequence: int
    const name: bytes
    const app: App
    var middlewares: seq<HandleFunc>

    /** NewAppRouter. */
    constructor (app: App, sequence: int, name: bytes)
      ensures this.app == app && this.sequence == sequence && this.name == name && middlewares == []
    {
      this.app := app;
      this.sequence := sequence;
      this.name := name;
      middlewares := [];
    }

    /** Use: the handlers join the router's middlewares. */
    method Use(handles: seq<HandleFunc>) returns (group: Group)
      modifies this
      ensures middlewares == old(middlewares) + handles
      ensures group == ReturnGroup(this)
    {
      middlewares := middlewares + handles;
      group := ReturnGroup(this);
    }

    /**
     * Handle: the route stored under the router's name followed by name,
     * with the middlewares in front of the handlers and dispatchDefaults at
     * the end; a name already stored panics.
     */
    method Handle(name: bytes, handles: seq<HandleFunc>) returns (group: Group, panicked: Option<string>)
      requires app.Valid()
      modifies app.routes
      ensures app.Valid()
      ensures panicked.Some? <==> FullName(this.name, name) in old(app.routes.Contents())
      ensures panicked.Some? ==> app.routes.items == old(app.routes.items)
      ensures panicked.None? ==>
        app.routes.Contents() ==
          old(app.routes.Contents())[FullName(this.name, name) := RouteItem(middlewares + handles + [DispatchDefaults], FullName(this.name, name))]
      ensures group == ReturnGroup(this)
    {
      var name' := name;
      if |this.name| > 0 {
        name' := this.name + name;
      }
      var handles' := middlewares + handles;
      panicked := app.Route(name', handles');
      group := ReturnGroup(this);
    }

    /**
     * Default: the router's default chain (wrapped by routeHandle for a
     * named router) replaces its entry; no handlers remove the entry.
     */
    method Default(handles: seq<HandleFunc>) returns (group: Group)
      requires app.Valid() && app.defaultsBucket != null
      modifies app.defaultsBucket
      ensures app.Valid()
      ensures |handles| > 0 ==>
        app.defaultsBucket.Contents() == old(app.defaultsBucket.Contents())[sequence := DefaultItem(RouterDefaults(name, middlewares, handles), sequence)]
      ensures |handles| == 0 ==> app.defaultsBucket.Contents() == old(app.defaultsBucket.Contents()) - {sequence}
      ensures group == ReturnGroup(this)
    {
      var defaults: seq<HandleFunc> := [];
      if |handles| > 0 {
        var handles' := middlewares + handles;
        defaults := handles';
        if |name| > 0 {
          defaults := [RouteHandle(name, handles')];
        }
      }
      app.SetDefaults(sequence, defaults);
      group := ReturnGroup(this);
    }

    /** Group: a new router without a name. */
    method Group() returns (router: AppRouter)
      requires app.Valid()
      modifies app
      ensures app.Valid() && app.sequence == Wrap(old(app.sequence) + 1, U16)
      ensures fresh(router) && router.app == app && router.sequence == app.sequence && router.name == [] && router.middlewares == []
    {
      router := app.NewRoute([]);
    }

    /** Route: a new router whose routes and defaults live under name. */
    method Route(name: bytes) returns (router: AppRouter)
      requires app.Valid()
      modifies app
      ensures app.Valid() && app.sequence == Wrap(old(app.sequence) + 1, U16)
      ensures fresh(router) && router.app == app && router.sequence == app.sequence && router.name == name && router.middlewares == []
    {
      router := app.NewRoute(name);
    }
  }
}
