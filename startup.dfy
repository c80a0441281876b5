/** Start-up decisions of app.go: which port to listen on and which handler
    serves each path and HTTP method. */
module Startup {
  import opened Records
  import opened Strconv

  /** The position of the port among the command-line arguments. */
  const ArgBindport := 1

  /** `findBindPort`: "8080", replaced by a non-empty `PORT` environment value,
      replaced in turn by the first command-line argument when it parses as a
      base-10 64-bit integer. `env` is the value of `PORT` ("" when unset) and
      `args` the command line, program name first. */
  method FindBindPort(env: string, args: seq<string>) returns (port: string)
    ensures |args| > ArgBindport && ParseInt(args[ArgBindport]).Ok? ==> port == args[ArgBindport]
    ensures !(|args| > ArgBindport && ParseInt(args[ArgBindport]).Ok?) && env != "" ==> port == env
    ensures !(|args| > ArgBindport && ParseInt(args[ArgBindport]).Ok?) && env == "" ==> port == "8080"
    ensures port != ""
  {
    port := "8080";
    if env != "" {
      port := env;
    }
    if |args| > 1 {
      var s := args[ArgBindport];
      var parsed := ParseInt(s);
      if parsed.Ok? {
        ParseIntOk(s, parsed.value);
        port := s;
      }
    }
  }

  /** The handlers routes lead to. */
  datatype Handler =
    | StaticFiles | Index | Login | Register | Logout | DashboardPage
    | SearchNotes | CreateNote | EditNote | DeleteNote | EditSettings

  /** A registered route: an exact path, or (for `PathPrefix`) a path prefix,
      and the methods it accepts. */
  datatype Route = Route(path: string, isPrefix: bool, methods: seq<string>, handler: Handler)

  predicate PathMatches(r: Route, path: string)
  {
    if r.isPrefix then r.path <= path else r.path == path
  }

  /** The handler for a request: the first route, in registration order, whose
      path and method both match; `None` when no route does. */
  function Dispatch(routes: seq<Route>, path: string, httpMethod: string): (h: Option<Handler>)
    ensures h.Some? ==>
      exists i :: 0 <= i < |routes| && routes[i].handler == h.value
        && PathMatches(routes[i], path) && httpMethod in routes[i].methods
    ensures h.None? <==> forall i :: 0 <= i < |routes| ==> !(PathMatches(routes[i], path) && httpMethod in routes[i].methods)
  {
    if routes == [] then None
    else if PathMatches(routes[0], path) && httpMethod in routes[0].methods then Some(routes[0].handler)
    else
      var h := Dispatch(routes[1..], path, httpMethod);
      if h.Some? then
        var i :| 0 <= i < |routes[1..]| && routes[1..][i].handler == h.value
          && PathMatches(routes[1..][i], path) && httpMethod in routes[1..][i].methods;
        assert routes[i + 1] == routes[1..][i];
        h
      else
        assert forall i :: 1 <= i < |routes| ==> routes[i] == routes[1..][i - 1];
        h
  }

  /** When exactly one route matches a path, that route alone decides which
      methods are served there and by which handler. */
  lemma DispatchOnlyMatch(routes: seq<Route>, path: string, k: int)
    requires 0 <= k < |routes| && PathMatches(routes[k], path)
    requires forall i :: 0 <= i < |routes| && i != k ==> !PathMatches(routes[i], path)
    ensures forall m :: Dispatch(routes, path, m) == if m in routes[k].methods then Some(routes[k].handler) else None
  {
    forall m
      ensures Dispatch(routes, path, m) == if m in routes[k].methods then Some(routes[k].handler) else None
    {
      if m in routes[k].methods {
        assert Dispatch(routes, path, m).Some?;
      }
    }
  }

  const StaticsPrefix := "/statics/"

  /** The routes `initRouter` registers, in order. */
  const RouteTable: seq<Route> := [
    Route(StaticsPrefix, true, ["GET"], StaticFiles),
    Route("/", false, ["GET"], Index),
    Route("/login", false, ["POST", "GET"], Login),
    Route("/register", false, ["POST", "GET"], Register),
    Route("/logout", false, ["GET"], Logout),
    Route("/dashboard", false, ["GET"], DashboardPage),
    Route("/search", false, ["POST"], SearchNotes),
    Route("/create", false, ["POST"], CreateNote),
    Route("/edit", false, ["POST"], EditNote),
    Route("/delete", false, ["POST"], DeleteNote),
    Route("/editsettings", false, ["POST"], EditSettings)]

  /** Every path under /statics/ is served by the file server, for GET only:
      no handler path lies under that prefix. */
  lemma StaticsRoute(p: string)
    requires StaticsPrefix <= p
    ensures forall m :: Dispatch(RouteTable, p, m) == if m == "GET" then Some(StaticFiles) else None
  {
    forall i | 1 <= i < |RouteTable| ensures !PathMatches(RouteTable[i], p) {
      var q := RouteTable[i].path;
      assert |q| < 2 || q[1] != 's' || q[2] != 't';
    }
    DispatchOnlyMatch(RouteTable, p, 0);
  }

  /** The exact path of route `k` is matched by that route only. */
  lemma ExactRoute(k: int)
    requires 1 <= k < |RouteTable|
    ensures forall m ::
      Dispatch(RouteTable, RouteTable[k].path, m) == if m in RouteTable[k].methods then Some(RouteTable[k].handler) else None
  {
    var p := RouteTable[k].path;
    forall i | 0 <= i < |RouteTable| && i != k ensures !PathMatches(RouteTable[i], p) {
      if i == 0 {
        assert |p| < 2 || p[1] != 's' || p[2] != 't';
      } else {
        assert RouteTable[i].path != p;
      }
    }
    DispatchOnlyMatch(RouteTable, p, k);
  }

  /** The exact paths of the handler routes. */
  const HandlerPaths: seq<string> :=
    ["/", "/login", "/register", "/logout", "/dashboard", "/search", "/create", "/edit", "/delete", "/editsettings"]

  /** A path outside /statics/ that no handler is registered for is served by
      nobody, whatever the method. */
  lemma UnlistedPath(p: string)
    requires !(StaticsPrefix <= p) && p !in HandlerPaths
    ensures forall m :: Dispatch(RouteTable, p, m) == None
  {
    forall i | 0 <= i < |RouteTable| ensures !PathMatches(RouteTable[i], p) {
      if i > 0 {
        assert RouteTable[i].path == HandlerPaths[i - 1];
      }
    }
  }

  /** What the registered table serves: GET only under /statics/ and on "/",
      /logout and /dashboard; POST and GET on /login and /register; POST only
      on the five form targets; nothing anywhere else. */
  lemma RouteTableDispatch()
    ensures forall p, m :: StaticsPrefix <= p ==>
      Dispatch(RouteTable, p, m) == if m == "GET" then Some(StaticFiles) else None
    ensures forall m :: Dispatch(RouteTable, "/", m) == if m == "GET" then Some(Index) else None
    ensures forall m :: Dispatch(RouteTable, "/login", m) == if m == "POST" || m == "GET" then Some(Login) else None
    ensures forall m :: Dispatch(RouteTable, "/register", m) == if m == "POST" || m == "GET" then Some(Register) else None
    ensures forall m :: Dispatch(RouteTable, "/logout", m) == if m == "GET" then Some(Logout) else None
    ensures forall m :: Dispatch(RouteTable, "/dashboard", m) == if m == "GET" then Some(DashboardPage) else None
    ensures forall m :: Dispatch(RouteTable, "/search", m) == if m == "POST" then Some(SearchNotes) else None
    ensures forall m :: Dispatch(RouteTable, "/create", m) == if m == "POST" then Some(CreateNote) else None
    ensures forall m :: Dispatch(RouteTable, "/edit", m) == if m == "POST" then Some(EditNote) else None
    ensures forall m :: Dispatch(RouteTable, "/delete", m) == if m == "POST" then Some(DeleteNote) else None
    ensures forall m :: Dispatch(RouteTable, "/editsettings", m) == if m == "POST" then Some(EditSettings) else None
    ensures forall p, m :: !(StaticsPrefix <= p) && p !in HandlerPaths ==> Dispatch(RouteTable, p, m) == None
  {
    forall p, m | StaticsPrefix <= p
      ensures Dispatch(RouteTable, p, m) == if m == "GET" then Some(StaticFiles) else None
    {
      StaticsRoute(p);
    }
    forall p, m | !(StaticsPrefix <= p) && p !in HandlerPaths
      ensures Dispatch(RouteTable, p, m) == None
    {
      UnlistedPath(p);
    }
    GetOnly(1, "/", Index);
    PostAndGet(2, "/login", Login);
    PostAndGet(3, "/register", Register);
    GetOnly(4, "/logout", Logout);
    GetOnly(5, "/dashboard", DashboardPage);
    PostOnly(6, "/search", SearchNotes);
    PostOnly(7, "/create", CreateNote);
    PostOnly(8, "/edit", EditNote);
    PostOnly(9, "/delete", DeleteNote);
    PostOnly(10, "/editsettings", EditSettings);
  }

  lemma GetOnly(k: int, path: string, h: Handler)
    requires 1 <= k < |RouteTable| && RouteTable[k] == Route(path, false, ["GET"], h)
    ensures forall m ::
      Dispatch(RouteTable, path, m) == if m == "GET" then Some(h) else None
  {
    ExactRoute(k);
  }

  lemma PostAndGet(k: int, path: string, h: Handler)
    requires 1 <= k < |RouteTable| && RouteTable[k] == Route(path, false, ["POST", "GET"], h)
    ensures forall m ::
      Dispatch(RouteTable, path, m) == if m == "POST" || m == "GET" then Some(h) else None
  {
    ExactRoute(k);
  }

  lemma PostOnly(k: int, path: string, h: Handler)
    requires 1 <= k < |RouteTable| && RouteTable[k] == Route(path, false, ["POST"], h)
    ensures forall m ::
      Dispatch(RouteTable, path, m) == if m == "POST" then Some(h) else None
  {
    ExactRoute(k);
  }

  /** `initRouter`: registers the static files under /statics/ and then the
      handlers, one route at a time. */
  method InitRouter() returns (routes: seq<Route>)
    ensures forall p, m :: StaticsPrefix <= p ==>
      Dispatch(routes, p, m) == if m == "GET" then Some(StaticFiles) else None
    ensures forall m :: Dispatch(routes, "/", m) == if m == "GET" then Some(Index) else None
    ensures forall m :: Dispatch(routes, "/login", m) == if m == "POST" || m == "GET" then Some(Login) else None
    ensures forall m :: Dispatch(routes, "/register", m) == if m == "POST" || m == "GET" then Some(Register) else None
    ensures forall m :: Dispatch(routes, "/logout", m) == if m == "GET" then Some(Logout) else None
    ensures forall m :: Dispatch(routes, "/dashboard", m) == if m == "GET" then Some(DashboardPage) else None
    ensures forall m :: Dispatch(routes, "/search", m) == if m == "POST" then Some(SearchNotes) else None
    ensures forall m :: Dispatch(routes, "/create", m) == if m == "POST" then Some(CreateNote) else None
    ensures forall m :: Dispatch(routes, "/edit", m) == if m == "POST" then Some(EditNote) else None
    ensures forall m :: Dispatch(routes, "/delete", m) == if m == "POST" then Some(DeleteNote) else None
    ensures forall m :: Dispatch(routes, "/editsettings", m) == if m == "POST" then Some(EditSettings) else None
    ensures forall p, m :: !(StaticsPrefix <= p) && p !in HandlerPaths ==> Dispatch(routes, p, m) == None
  {
    routes := [];
    routes := routes + [Route(StaticsPrefix, true, ["GET"], StaticFiles)];
    routes := routes + [Route("/", false, ["GET"], Index)];
    routes := routes + [Route("/login", false, ["POST", "GET"], Login)];
    routes := routes + [Route("/register", false, ["POST", "GET"], Register)];
    routes := routes + [Route("/logout", false, ["GET"], Logout)];
    routes := routes + [Route("/dashboard", false, ["GET"], DashboardPage)];
    routes := routes + [Route("/search", false, ["POST"], SearchNotes)];
    routes := routes + [Route("/create", false, ["POST"], CreateNote)];
    routes := routes + [Route("/edit", false, ["POST"], EditNote)];
    routes := routes + [Route("/delete", false, ["POST"], DeleteNote)];
    routes := routes + [Route("/editsettings", false, ["POST"], EditSettings)];
    assert routes == RouteTable;
    RouteTableDispatch();
  }
}
