/**
 * webframe.core.util.AnnotationScanner: how a controller method's Router, GET
 * and POST annotations become a route, how the routes of a list of
 * controllers are collected, how class names are derived from jar entries and
 * class-file trees, and how the discovered names are filtered and sorted.
 */
module AnnotationScanner {
  import opened Wrappers
  import opened JavaStrings
  import opened Reflection
  import opened Tools

  // ---------------------------------------------------------------------------
  // From annotations to a route

  /** The verbs a `@Router` with an empty `methods` element accepts. */
  const AllVerbs: set<string> := {"GET", "POST", "PUT", "DELETE", "PATCH"}

  predicate HasRouteAnnotation(m: MethodDecl) {
    m.router.Some? || m.get.Some? || m.post.Some?
  }

  /** The url: the Router's value when there is a Router (even ""), else GET's, else POST's. */
  function RouteUrl(m: MethodDecl): string
    requires HasRouteAnnotation(m)
  {
    if m.router.Some? then m.router.value.value
    else if m.get.Some? then m.get.value.value
    else m.post.value.value
  }

  /** The view: POST's non-blank view, else GET's, else the Router's, else the method name. */
  function RouteView(m: MethodDecl): string
    requires HasRouteAnnotation(m)
  {
    if m.post.Some? && !IsBlank(m.post.value.view) then m.post.value.view
    else if m.get.Some? && !IsBlank(m.get.value.view) then m.get.value.view
    else if m.router.Some? && !IsBlank(m.router.value.view) then m.router.value.view
    else m.name
  }

  /** The upper-cased verbs of a list. */
  function ListedVerbs(verbs: seq<string>): set<string> {
    set v | v in verbs :: ToUpper(v)
  }

  /** The verbs a Router seeds: all five main ones for an empty list, else the listed ones upper-cased. */
  function RouterVerbs(r: RouterAnnotation): set<string> {
    if r.methods == [] then AllVerbs else ListedVerbs(r.methods)
  }

  /** Every verb the route answers: the Router's, plus GET for `@GET` and POST for `@POST`. */
  function RouteVerbs(m: MethodDecl): set<string> {
    (if m.router.Some? then RouterVerbs(m.router.value) else {})
    + (if m.get.Some? then {"GET"} else {})
    + (if m.post.Some? then {"POST"} else {})
  }

  /** The same handler under every verb of a set. */
  function Handlers(verbs: set<string>, m: MethodDecl): map<string, MethodDecl> {
    map v | v in verbs :: m
  }

  /** The route a method declares, as a value. */
  datatype Route = Route(url: string, methods: map<string, MethodDecl>, view: string, controller: ClassDecl)

  /** The route of a method of a controller, or None when it carries none of Router, GET, POST. */
  function RouteOf(m: MethodDecl, c: ClassDecl): Option<Route> {
    if HasRouteAnnotation(m) then Some(Route(RouteUrl(m), Handlers(RouteVerbs(m), m), RouteView(m), c))
    else None
  }

  /** A freshly built route object holds exactly the route `r`. */
  predicate Describes(mv: ModelView, r: Route)
    reads mv
  {
    mv.url == r.url && mv.methods == r.methods && mv.view == r.view
    && mv.controller == Some(r.controller) && mv.data == map[]
  }

  /** processMethodAnnotations: the route object a method declares, or null when it declares none. */
  method ProcessMethodAnnotations(m: MethodDecl, c: ClassDecl) returns (r: Option<ModelView>)
    ensures r.None? <==> !HasRouteAnnotation(m)
    ensures r.Some? ==> fresh(r.value) && Describes(r.value, RouteOf(m, c).value)
  {
    if m.router.None? && m.get.None? && m.post.None? {
      return None;
    }
    var url: Option<string> := None;
    var fallbackView: Option<string> := None;
    var methodMap: map<string, MethodDecl> := map[];

    if m.router.Some? {
      var router := m.router.value;
      url := Some(router.value);
      fallbackView := Some(if !IsBlank(router.view) then router.view else m.name);
      if |router.methods| == 0 {
        methodMap := methodMap["GET" := m];
        methodMap := methodMap["POST" := m];
        methodMap := methodMap["PUT" := m];
        methodMap := methodMap["DELETE" := m];
        methodMap := methodMap["PATCH" := m];
        SeedAllVerbs(m);
      } else {
        for i := 0 to |router.methods|
          invariant methodMap == Handlers(ListedVerbs(router.methods[..i]), m)
        {
          ListedVerbsSnoc(router.methods, i);
          HandlersAdd(ListedVerbs(router.methods[..i]), ToUpper(router.methods[i]), m);
          methodMap := methodMap[ToUpper(router.methods[i]) := m];
        }
        assert router.methods[..|router.methods|] == router.methods;
      }
    }
    ghost var routerVerbs: set<string> := if m.router.Some? then RouterVerbs(m.router.value) else {};
    assert methodMap == Handlers(routerVerbs, m);

    if m.get.Some? {
      if url.None? {
        url := Some(m.get.value.value);
      }
      var annotationView := m.get.value.view;
      if !IsBlank(annotationView) {
        fallbackView := Some(annotationView);
      }
      if fallbackView.None? {
        fallbackView := Some(m.name);
      }
      HandlersAdd(routerVerbs, "GET", m);
      methodMap := methodMap["GET" := m];
    }
    ghost var getVerbs: set<string> := routerVerbs + (if m.get.Some? then {"GET"} else {});
    assert methodMap == Handlers(getVerbs, m);
    assert fallbackView.Some? <==> m.router.Some? || m.get.Some?;
    assert m.get.Some? && !IsBlank(m.get.value.view) ==> fallbackView == Some(m.get.value.view);

    if m.post.Some? {
      if url.None? {
        url := Some(m.post.value.value);
      }
      var annotationView := m.post.value.view;
      if !IsBlank(annotationView) {
        fallbackView := Some(annotationView);
      }
      if fallbackView.None? {
        fallbackView := Some(m.name);
      }
      HandlersAdd(getVerbs, "POST", m);
      methodMap := methodMap["POST" := m];
    }
    assert methodMap == Handlers(RouteVerbs(m), m);
    assert url == Some(RouteUrl(m));
    assert fallbackView == Some(RouteView(m));

    var route := new ModelView(url.value, Some(methodMap), fallbackView.value, Some(c));
    return Some(route);
  }

  /** Adding one verb for the same handler extends the verb set. */
  lemma HandlersAdd(verbs: set<string>, v: string, m: MethodDecl)
    ensures Handlers(verbs, m)[v := m] == Handlers(verbs + {v}, m)
  {
  }

  /** The five puts of a Router without a verb list. */
  lemma SeedAllVerbs(m: MethodDecl)
    ensures map[]["GET" := m]["POST" := m]["PUT" := m]["DELETE" := m]["PATCH" := m] == Handlers(AllVerbs, m)
  {
  }

  lemma ListedVerbsSnoc(verbs: seq<string>, i: nat)
    requires i < |verbs|
    ensures ListedVerbs(verbs[..i + 1]) == ListedVerbs(verbs[..i]) + {ToUpper(verbs[i])}
  {
    assert verbs[..i + 1] == verbs[..i] + [verbs[i]];
  }

  /**
   * The verb map of a route: never empty, keys upper-case, every verb bound to
   * the declaring method; GET and POST present whenever their annotation is;
   * exactly the five main verbs for a Router with no verb list and no GET/POST
   * beyond them; exactly the upper-cased listed verbs for a Router alone.
   */
  lemma RouteVerbMap(m: MethodDecl, c: ClassDecl)
    requires HasRouteAnnotation(m)
    ensures var r := RouteOf(m, c).value;
      && r.methods != map[]
      && UpperKeys(r.methods)
      && (forall v :: v in r.methods ==> r.methods[v] == m)
      && (m.get.Some? ==> "GET" in r.methods)
      && (m.post.Some? ==> "POST" in r.methods)
      && (m.router.Some? && m.router.value.methods == [] ==> r.methods.Keys == AllVerbs)
      && (m.router.Some? && m.router.value.methods != [] && m.get.None? && m.post.None? ==>
            forall v :: v in r.methods <==> exists i :: 0 <= i < |m.router.value.methods| && ToUpper(m.router.value.methods[i]) == v)
  {
    var r := RouteOf(m, c).value;
    UpperVerbs();
    if m.router.Some? {
      var verbs := m.router.value.methods;
      forall v | v in verbs
        ensures ToUpper(ToUpper(v)) == ToUpper(v)
      {
        ToUpperIdempotent(v);
      }
      if verbs != [] {
        assert ToUpper(verbs[0]) in r.methods;
      } else {
        assert "GET" in r.methods;
      }
      if m.get.None? && m.post.None? && verbs != [] {
        forall v | v in r.methods
          ensures exists i :: 0 <= i < |verbs| && ToUpper(verbs[i]) == v
        {
          var w :| w in verbs && ToUpper(w) == v;
          var i :| 0 <= i < |verbs| && verbs[i] == w;
        }
      }
    } else if m.get.Some? {
      assert "GET" in r.methods;
    } else {
      assert "POST" in r.methods;
    }
  }

  /** The five main verbs are written in upper case. */
  lemma UpperVerbs()
    ensures forall v :: v in AllVerbs ==> ToUpper(v) == v
  {
    assert ToUpper("GET") == "GET";
    assert ToUpper("POST") == "POST";
    assert ToUpper("PUT") == "PUT";
    assert ToUpper("DELETE") == "DELETE";
    assert ToUpper("PATCH") == "PATCH";
  }

  // ---------------------------------------------------------------------------
  // findRouterMethods

  /** The routes of the methods `ms` of class `c`, in the order reflection reports the methods. */
  function MethodRoutes(c: ClassDecl, ms: seq<MethodDecl>): seq<Route> {
    if ms == [] then []
    else
      var last := RouteOf(ms[|ms| - 1], c);
      MethodRoutes(c, ms[..|ms| - 1]) + (if last.Some? then [last.value] else [])
  }

  /** The routes of the controllers among `classes`, class by class. */
  function Routes(classes: seq<ClassDecl>): seq<Route> {
    if classes == [] then []
    else
      var c := classes[|classes| - 1];
      Routes(classes[..|classes| - 1]) + (if c.isController then MethodRoutes(c, c.methods) else [])
  }

  /** The routes findRouterMethods reports; none for a null list. */
  function AllRoutes(controllerClasses: Option<seq<ClassDecl>>): seq<Route> {
    if controllerClasses.None? then [] else Routes(controllerClasses.value)
  }

  /** findRouterMethods: one fresh, distinct route object per route of the controllers. */
  method FindRouterMethods(controllerClasses: Option<seq<ClassDecl>>) returns (routes: seq<ModelView>)
    ensures |routes| == |AllRoutes(controllerClasses)|
    ensures forall i :: 0 <= i < |routes| ==> fresh(routes[i]) && Describes(routes[i], AllRoutes(controllerClasses)[i])
    ensures forall i, j :: 0 <= i < j < |routes| ==> routes[i] != routes[j]
  {
    routes := [];
    if controllerClasses.None? {
      return;
    }
    var classes := controllerClasses.value;
    for k := 0 to |classes|
      invariant |routes| == |Routes(classes[..k])|
      invariant forall i :: 0 <= i < |routes| ==> fresh(routes[i]) && Describes(routes[i], Routes(classes[..k])[i])
      invariant forall i, j :: 0 <= i < j < |routes| ==> routes[i] != routes[j]
    {
      var c := classes[k];
      assert classes[..k + 1][..k] == classes[..k];
      if !c.isController {
        continue;
      }
      routes := AddMethodRoutes(c, routes, Routes(classes[..k]));
    }
    assert classes[..|classes|] == classes;
  }

  /** The inner loop of findRouterMethods: appends a route object for each annotated method of `c`. */
  method AddMethodRoutes(c: ClassDecl, routes: seq<ModelView>, ghost before: seq<Route>) returns (out: seq<ModelView>)
    requires |routes| == |before|
    requires forall i :: 0 <= i < |routes| ==> Describes(routes[i], before[i])
    requires forall i, j :: 0 <= i < j < |routes| ==> routes[i] != routes[j]
    ensures |out| == |before + MethodRoutes(c, c.methods)| && out[..|routes|] == routes
    ensures forall i :: |routes| <= i < |out| ==> fresh(out[i])
    ensures forall i :: 0 <= i < |out| ==> Describes(out[i], (before + MethodRoutes(c, c.methods))[i])
    ensures forall i, j :: 0 <= i < j < |out| ==> out[i] != out[j]
  {
    out := routes;
    ghost var spec := before;
    for n := 0 to |c.methods|
      invariant spec == before + MethodRoutes(c, c.methods[..n])
      invariant |out| == |spec| && out[..|routes|] == routes
      invariant forall i :: |routes| <= i < |out| ==> fresh(out[i])
      invariant forall i :: 0 <= i < |out| ==> Describes(out[i], spec[i])
      invariant forall i, j :: 0 <= i < j < |out| ==> out[i] != out[j]
    {
      MethodRoutesStep(c, c.methods, n);
      out, spec := AddMethodRoute(c.methods[n], c, routes, out, spec);
    }
    assert c.methods[..|c.methods|] == c.methods;
  }

  /** One step of the inner loop of findRouterMethods: the route object of `m`, if it declares one, is appended. */
  method AddMethodRoute(m: MethodDecl, c: ClassDecl, routes: seq<ModelView>, out: seq<ModelView>, ghost spec: seq<Route>)
    returns (next: seq<ModelView>, ghost nextSpec: seq<Route>)
    requires |out| == |spec| && |routes| <= |out| && out[..|routes|] == routes
    requires forall i :: 0 <= i < |out| ==> Describes(out[i], spec[i])
    requires forall i, j :: 0 <= i < j < |out| ==> out[i] != out[j]
    ensures nextSpec == spec + (if RouteOf(m, c).Some? then [RouteOf(m, c).value] else [])
    ensures |next| == |nextSpec| && next[..|routes|] == routes && next[..|out|] == out
    ensures forall i :: |out| <= i < |next| ==> fresh(next[i])
    ensures forall i :: 0 <= i < |next| ==> Describes(next[i], nextSpec[i])
    ensures forall i, j :: 0 <= i < j < |next| ==> next[i] != next[j]
  {
    next, nextSpec := out, spec;
    var modelView := ProcessMethodAnnotations(m, c);
    if modelView.Some? {
      next := out + [modelView.value];
      nextSpec := spec + [RouteOf(m, c).value];
    }
  }

  /** One more method of a class: its route, if any, follows those of the methods before it. */
  lemma MethodRoutesStep(c: ClassDecl, ms: seq<MethodDecl>, n: nat)
    requires n < |ms|
    ensures MethodRoutes(c, ms[..n + 1]) == MethodRoutes(c, ms[..n]) + (if RouteOf(ms[n], c).Some? then [RouteOf(ms[n], c).value] else [])
  {
    assert ms[..n + 1][..n] == ms[..n];
  }

  /**
   * The routes of a class's methods: a route of `ms` is exactly the route of
   * one of its annotated methods, and a list of methods that are all annotated
   * (or none of which is) gives one route per method, in order (or none).
   */
  lemma MethodRoutesSpec(c: ClassDecl, ms: seq<MethodDecl>)
    ensures forall r :: r in MethodRoutes(c, ms) <==> exists m :: m in ms && RouteOf(m, c) == Some(r)
    ensures (forall m :: m in ms ==> HasRouteAnnotation(m)) ==>
      |MethodRoutes(c, ms)| == |ms| && forall i :: 0 <= i < |ms| ==> Some(MethodRoutes(c, ms)[i]) == RouteOf(ms[i], c)
    ensures (forall m :: m in ms ==> !HasRouteAnnotation(m)) ==> MethodRoutes(c, ms) == []
  {
    MethodRoutesMembers(c, ms);
    if forall m :: m in ms ==> HasRouteAnnotation(m) {
      MethodRoutesAll(c, ms);
    }
    if forall m :: m in ms ==> !HasRouteAnnotation(m) {
      MethodRoutesNone(c, ms);
    }
  }

  lemma {:induction false} MethodRoutesMembers(c: ClassDecl, ms: seq<MethodDecl>)
    ensures forall r :: r in MethodRoutes(c, ms) <==> exists m :: m in ms && RouteOf(m, c) == Some(r)
    decreases |ms|
  {
    if ms != [] {
      var init := ms[..|ms| - 1];
      MethodRoutesMembers(c, init);
      assert forall m :: m in ms <==> m in init || m == ms[|ms| - 1];
    }
  }

  lemma {:induction false} MethodRoutesAll(c: ClassDecl, ms: seq<MethodDecl>)
    requires forall i :: 0 <= i < |ms| ==> HasRouteAnnotation(ms[i])
    ensures |MethodRoutes(c, ms)| == |ms|
    ensures forall i :: 0 <= i < |ms| ==> Some(MethodRoutes(c, ms)[i]) == RouteOf(ms[i], c)
    decreases |ms|
  {
    if ms != [] {
      var n := |ms| - 1;
      var init := ms[..n];
      assert forall i :: 0 <= i < n ==> init[i] == ms[i];
      MethodRoutesAll(c, init);
      assert MethodRoutes(c, ms) == MethodRoutes(c, init) + [RouteOf(ms[n], c).value];
    }
  }

  lemma {:induction false} MethodRoutesNone(c: ClassDecl, ms: seq<MethodDecl>)
    requires forall i :: 0 <= i < |ms| ==> !HasRouteAnnotation(ms[i])
    ensures MethodRoutes(c, ms) == []
    decreases |ms|
  {
    if ms != [] {
      var n := |ms| - 1;
      assert forall i :: 0 <= i < n ==> ms[..n][i] == ms[i];
      MethodRoutesNone(c, ms[..n]);
    }
  }

  /**
   * A route of a list of classes is exactly the route of an annotated method of
   * one of its controllers; a class without the marker contributes nothing.
   */
  lemma {:induction false} RoutesSpec(classes: seq<ClassDecl>)
    ensures forall r :: r in Routes(classes) <==>
      exists c, m :: c in classes && c.isController && m in c.methods && RouteOf(m, c) == Some(r)
    decreases |classes|
  {
    if classes != [] {
      var init := classes[..|classes| - 1];
      var c := classes[|classes| - 1];
      RoutesSpec(init);
      MethodRoutesSpec(c, c.methods);
      assert forall d :: d in classes <==> d in init || d == c;
    }
  }

  /** A class without `@Controller` adds no route, wherever it stands in the list. */
  lemma {:induction false} RoutesSkipNonController(classes: seq<ClassDecl>, c: ClassDecl)
    requires !c.isController
    ensures Routes(classes + [c]) == Routes(classes)
  {
    assert (classes + [c])[..|classes|] == classes;
  }

  // ---------------------------------------------------------------------------
  // Class names from jar entries and class-file trees

  /** An entry of a jar: its path and whether it is a directory. */
  datatype JarEntry = JarEntry(name: string, isDirectory: bool)

  /** `name.replace('/', '.').substring(0, name.length() - 6)` */
  function ClassNameOf(name: string): string
    requires EndsWith(name, ".class")
  {
    ReplaceEach(name, '/', '.')[..|name| - 6]
  }

  /** The entries scanJarFileComplete keeps: `.class` files that are not directories and have no '$'. */
  predicate CompleteCandidate(e: JarEntry) {
    EndsWith(e.name, ".class") && !Contains(e.name, "$") && !e.isDirectory
  }

  /** The entries scanJarFile keeps: `.class` files without '$' whose path starts with the package path. */
  predicate PackageCandidate(e: JarEntry, packagePath: string) {
    StartsWith(e.name, packagePath) && EndsWith(e.name, ".class") && !Contains(e.name, "$")
  }

  function CompleteNames(entries: seq<JarEntry>): set<string> {
    set e | e in entries && CompleteCandidate(e) :: ClassNameOf(e.name)
  }

  function PackageNames(entries: seq<JarEntry>, packagePath: string): set<string> {
    set e | e in entries && PackageCandidate(e, packagePath) :: ClassNameOf(e.name)
  }

  /** scanJarFileComplete: adds the class name of every kept entry to the set. */
  method ScanJarFileComplete(entries: seq<JarEntry>, classNames: set<string>) returns (out: set<string>)
    ensures out == classNames + CompleteNames(entries)
  {
    out := classNames;
    var i := 0;
    while i < |entries|
      invariant i <= |entries|
      invariant out == classNames + CompleteNames(entries[..i])
    {
      var entry := entries[i];
      var name := entry.name;
      assert entries[..i + 1] == entries[..i] + [entry];
      if EndsWith(name, ".class") && !Contains(name, "$") && !entry.isDirectory {
        var className := ReplaceEach(name, '/', '.')[..|name| - 6];
        out := out + {className};
      }
      i := i + 1;
    }
    assert entries[..i] == entries;
  }

  /** scanJarFile: adds the class name of every kept entry under the package path to the set. */
  method ScanJarFile(entries: seq<JarEntry>, packagePath: string, classNames: set<string>) returns (out: set<string>)
    ensures out == classNames + PackageNames(entries, packagePath)
  {
    out := classNames;
    var i := 0;
    while i < |entries|
      invariant i <= |entries|
      invariant out == classNames + PackageNames(entries[..i], packagePath)
    {
      var e := entries[i];
      var name := e.name;
      assert entries[..i + 1] == entries[..i] + [e];
      if StartsWith(name, packagePath) && EndsWith(name, ".class") && !Contains(name, "$") {
        var className := ReplaceEach(name, '/', '.')[..|name| - 6];
        out := out + {className};
      }
      i := i + 1;
    }
    assert entries[..i] == entries;
  }

  /**
   * The class name of the entry `d1/…/dn/Simple.class` is `d1.….dn.Simple`
   * (for path segments free of '/').
   */
  lemma ClassNameOfPath(dirs: seq<string>, simple: string)
    requires forall i :: 0 <= i < |dirs| ==> '/' !in dirs[i]
    requires '/' !in simple
    ensures EndsWith(Join(dirs + [simple + ".class"], '/'), ".class")
    ensures ClassNameOf(Join(dirs + [simple + ".class"], '/')) == Join(dirs + [simple], '.')
  {
    var ext := ".class";
    assert '/' !in ext && |ext| == 6;
    var path := Join(dirs + [simple + ext], '/');
    JoinedPath(dirs, simple, ext);
    assert EndsWith(path, ext);
    assert ClassNameOf(path) == ReplaceEach(path, '/', '.')[..|path| - |ext|];
  }

  /** Renaming the separators of `d1/…/dn/Simple<ext>` and dropping `<ext>` gives `d1.….dn.Simple`. */
  lemma JoinedPath(dirs: seq<string>, simple: string, ext: string)
    requires forall i :: 0 <= i < |dirs| ==> '/' !in dirs[i]
    requires '/' !in simple && '/' !in ext
    ensures var path := Join(dirs + [simple + ext], '/');
      |ext| <= |path| && path[|path| - |ext|..] == ext
      && ReplaceEach(path, '/', '.')[..|path| - |ext|] == Join(dirs + [simple], '.')
  {
    var file := simple + ext;
    var parts := dirs + [file];
    forall i | 0 <= i < |parts|
      ensures '/' !in parts[i]
    {
      if i < |dirs| {
        assert parts[i] == dirs[i];
      }
    }
    var path := Join(parts, '/');
    var p := if dirs == [] then [] else Join(dirs, '/') + ['/'];
    var q := if dirs == [] then [] else Join(dirs, '.') + ['.'];
    JoinSnoc(dirs, file, '/');
    JoinSnoc(dirs, file, '.');
    JoinSnoc(dirs, simple, '.');
    ReplaceEachJoin(parts, '/', '.');
    assert path == p + file;
    assert ReplaceEach(path, '/', '.') == q + file;
    assert |q| == |p|;
    SplitSuffix(p, simple, ext);
    SplitSuffix(q, simple, ext);
  }

  lemma SplitSuffix(front: string, simple: string, ext: string)
    ensures (front + (simple + ext))[..|front| + |simple|] == front + simple
    ensures (front + (simple + ext))[|front| + |simple|..] == ext
  {
  }

  /** Joining a list with one more part appends a separator and the part. */
  lemma {:induction false} JoinSnoc(parts: seq<string>, x: string, c: char)
    ensures Join(parts + [x], c) == (if parts == [] then [] else Join(parts, c) + [c]) + x
    decreases |parts|
  {
    if |parts| == 1 {
      assert (parts + [x])[1..] == [x];
    } else if |parts| > 1 {
      JoinSnoc(parts[1..], x, c);
      assert (parts + [x])[1..] == parts[1..] + [x];
    }
  }

  /** Every class name a complete jar scan derives is free of '$'. */
  lemma CompleteNamesDollarFree(entries: seq<JarEntry>)
    ensures forall n :: n in CompleteNames(entries) ==> '$' !in n
  {
    forall e | e in entries && CompleteCandidate(e)
      ensures '$' !in ClassNameOf(e.name)
    {
      ContainsChar(e.name, '$');
    }
  }

  /**
   * The package test of scanJarFile is a plain string prefix: scanning the
   * package path "webframe" also admits an entry of the package "webframes".
   */
  lemma PackagePrefixAdmitsSibling()
    ensures PackageCandidate(JarEntry("webframes/A.class", false), "webframe")
  {
    var name := "webframes/A.class";
    assert name[..8] == "webframe";
    assert name[|name| - 6..] == ".class";
    assert '$' !in name;
    ContainsChar(name, '$');
  }

  /** A node of a class-file directory tree. */
  datatype FileNode = File(name: string) | Dir(name: string, children: seq<FileNode>)

  /** scanDirectoryRecursive's package step: the name alone under the empty package. */
  function Qualify(pkg: string, name: string): string {
    if pkg == [] then name else pkg + "." + name
  }

  /** The class names scanDirectoryRecursive adds for a list of nodes under package `pkg`. */
  function TreeNames(files: seq<FileNode>, pkg: string): set<string>
    decreases files
  {
    set f, n | f in files && n in NodeNames(f, pkg) :: n
  }

  function NodeNames(f: FileNode, pkg: string): set<string>
    decreases f
  {
    match f
    case File(name) =>
      if EndsWith(name, ".class") && !Contains(name, "$") then {Qualify(pkg, name[..|name| - 6])} else {}
    case Dir(name, children) => TreeNames(children, Qualify(pkg, name))
  }

  /** The class names scanDirectory adds: always `pkg.name`, with no '$' test. */
  function DirectoryNames(files: seq<FileNode>, pkg: string): set<string>
    decreases files
  {
    set f, n | f in files && n in DirectoryNodeNames(f, pkg) :: n
  }

  function DirectoryNodeNames(f: FileNode, pkg: string): set<string>
    decreases f
  {
    match f
    case File(name) =>
      if EndsWith(name, ".class") then {pkg + "." + name[..|name| - 6]} else {}
    case Dir(name, children) => DirectoryNames(children, pkg + "." + name)
  }

  /** The names of a list's first nodes and of one more node. */
  lemma TreeNamesSnoc(files: seq<FileNode>, i: nat, pkg: string)
    requires i < |files|
    ensures TreeNames(files[..i + 1], pkg) == TreeNames(files[..i], pkg) + NodeNames(files[i], pkg)
    ensures DirectoryNames(files[..i + 1], pkg) == DirectoryNames(files[..i], pkg) + DirectoryNodeNames(files[i], pkg)
  {
    assert forall f :: f in files[..i + 1] <==> f in files[..i] || f == files[i];
  }

  lemma UnionStep<T>(before: set<T>, done: set<T>, step: set<T>, next: set<T>)
    requires next == done + step
    ensures before + done + step == before + next
  {
  }

  /** scanDirectoryRecursive: adds the class names of a directory's contents, recursively. */
  method ScanDirectoryRecursive(files: seq<FileNode>, currentPackage: string, classNames: set<string>) returns (out: set<string>)
    ensures out == classNames + TreeNames(files, currentPackage)
    decreases files
  {
    out := classNames;
    for i := 0 to |files|
      invariant out == classNames + TreeNames(files[..i], currentPackage)
    {
      TreeNamesSnoc(files, i, currentPackage);
      UnionStep(classNames, TreeNames(files[..i], currentPackage), NodeNames(files[i], currentPackage), TreeNames(files[..i + 1], currentPackage));
      var file := files[i];
      if file.Dir? {
        var nextPackage := if currentPackage == [] then file.name else currentPackage + "." + file.name;
        assert nextPackage == Qualify(currentPackage, file.name);
        out := ScanDirectoryRecursive(file.children, nextPackage, out);
      } else if EndsWith(file.name, ".class") && !Contains(file.name, "$") {
        var simple := file.name[..|file.name| - 6];
        var className := if currentPackage == [] then simple else currentPackage + "." + simple;
        assert className == Qualify(currentPackage, simple);
        out := out + {className};
      } else {
        assert NodeNames(file, currentPackage) == {};
      }
    }
    assert files[..|files|] == files;
  }

  /** scanDirectory: adds the class names of a package directory's contents, recursively. */
  method ScanDirectory(files: seq<FileNode>, currentPackage: string, classNames: set<string>) returns (out: set<string>)
    ensures out == classNames + DirectoryNames(files, currentPackage)
    decreases files
  {
    out := classNames;
    for i := 0 to |files|
      invariant out == classNames + DirectoryNames(files[..i], currentPackage)
    {
      TreeNamesSnoc(files, i, currentPackage);
      UnionStep(classNames, DirectoryNames(files[..i], currentPackage), DirectoryNodeNames(files[i], currentPackage), DirectoryNames(files[..i + 1], currentPackage));
      var file := files[i];
      if file.Dir? {
        var nextPackage := currentPackage + "." + file.name;
        assert DirectoryNodeNames(file, currentPackage) == DirectoryNames(file.children, nextPackage);
        out := ScanDirectory(file.children, nextPackage, out);
      } else if EndsWith(file.name, ".class") {
        var simple := file.name[..|file.name| - 6];
        var className := currentPackage + "." + simple;
        assert DirectoryNodeNames(file, currentPackage) == {className};
        out := out + {className};
      } else {
        assert DirectoryNodeNames(file, currentPackage) == {};
      }
    }
    assert files[..|files|] == files;
  }

  /** A '$'-free class file under package `pkg` gives scanDirectoryRecursive the one name `pkg.Simple` (`Simple` alone under the empty package). */
  lemma {:induction false} TreeNamesOfFile(name: string, pkg: string)
    requires EndsWith(name, ".class") && '$' !in name
    ensures NodeNames(File(name), pkg) == {Qualify(pkg, name[..|name| - 6])}
  {
    ContainsChar(name, '$');
  }

  // ---------------------------------------------------------------------------
  // findClassesWithController

  /**
   * The package path scanned: None (the whole classpath) for a null or blank
   * package, else the package with '.' written as '/'.
   */
  function PackagePath(basePackage: Option<string>): (r: Option<string>)
    ensures r.None? <==> basePackage.None? || IsBlank(basePackage.value)
    ensures r.Some? ==> (|r.value| == |basePackage.value| && '.' !in r.value
      && forall i :: 0 <= i < |r.value| ==> r.value[i] == if basePackage.value[i] == '.' then '/' else basePackage.value[i])
  {
    if basePackage.None? || IsBlank(basePackage.value) then None
    else Some(ReplaceEach(basePackage.value, '.', '/'))
  }

  /** The names findClassesWithController keeps: `$`-free names of classes the loader finds annotated. */
  function Retained(classNames: set<string>, isController: string -> bool): set<string> {
    set n | n in classNames && isController(n) && !Contains(n, "$")
  }

  predicate StrictlySorted(s: seq<string>) {
    forall i, j :: 0 <= i < j < |s| ==> Less(s[i], s[j])
  }

  predicate Distinct(s: seq<string>) {
    forall i, j :: 0 <= i < j < |s| ==> s[i] != s[j]
  }

  /**
   * The filter and sort of findClassesWithController over the names the scans
   * collected. `isController(n)` stands for loading class `n` and finding
   * `@Controller` on it; it is false for a class that does not load.
   */
  method FindClassesWithController(classNames: set<string>, isController: string -> bool) returns (annotated: seq<string>)
    ensures StrictlySorted(annotated)
    ensures forall n :: n in annotated <==> n in Retained(classNames, isController)
    ensures forall n :: n in annotated ==> '$' !in n
  {
    var list: seq<string> := [];
    var remaining := classNames;
    while remaining != {}
      invariant remaining <= classNames
      invariant forall n :: n in list <==> n in Retained(classNames - remaining, isController)
      invariant Distinct(list)
      decreases |remaining|
    {
      var className :| className in remaining;
      remaining := remaining - {className};
      if isController(className) {
        if Contains(className, "$") {
          continue;
        }
        assert className !in list;
        list := list + [className];
      }
    }
    annotated := Sort(list);
    forall n | n in annotated
      ensures '$' !in n
    {
      ContainsChar(n, '$');
    }
  }

  /** `Collections.sort` on a list of distinct names: the same names in ascending order. */
  method Sort(list: seq<string>) returns (sorted: seq<string>)
    requires Distinct(list)
    ensures StrictlySorted(sorted)
    ensures forall n :: n in sorted <==> n in list
  {
    sorted := [];
    for i := 0 to |list|
      invariant StrictlySorted(sorted)
      invariant forall n :: n in sorted <==> n in list[..i]
    {
      assert list[i] !in list[..i];
      InsertSpec(sorted, list[i]);
      sorted := Insert(sorted, list[i]);
      assert list[..i + 1] == list[..i] + [list[i]];
    }
    assert list[..|list|] == list;
  }

  /** The ascending list with `x` put in its place. */
  function Insert(s: seq<string>, x: string): seq<string> {
    if s == [] then [x]
    else if Less(x, s[0]) then [x] + s
    else [s[0]] + Insert(s[1..], x)
  }

  lemma {:induction false} InsertSpec(s: seq<string>, x: string)
    requires StrictlySorted(s) && x !in s
    ensures StrictlySorted(Insert(s, x))
    ensures forall n :: n in Insert(s, x) <==> n in s || n == x
    decreases |s|
  {
    if s != [] {
      if Less(x, s[0]) {
        forall j | 0 < j < |s|
          ensures Less(x, s[j])
        {
          LessTransitive(x, s[0], s[j]);
        }
      } else {
        LessTotal(x, s[0]);
        InsertSpec(s[1..], x);
        assert forall n :: n in s <==> n == s[0] || n in s[1..];
        var t := Insert(s[1..], x);
        assert forall k :: 0 <= k < |t| ==> Less(s[0], t[k]) by {
          forall k | 0 <= k < |t|
            ensures Less(s[0], t[k])
          {
            if t[k] != x {
              assert t[k] in t;
              assert t[k] in s[1..];
              var j :| 0 <= j < |s| - 1 && s[1..][j] == t[k];
              assert s[j + 1] == t[k];
            }
          }
        }
      }
    }
  }

  /**
   * Two ascending lists of the same names are the same list: the result of
   * findClassesWithController does not depend on the order the set is walked.
   */
  lemma {:induction false} StrictlySortedUnique(a: seq<string>, b: seq<string>)
    requires StrictlySorted(a) && StrictlySorted(b)
    requires forall n :: n in a <==> n in b
    ensures a == b
    decreases |a|
  {
    if a != [] && b != [] {
      assert a[0] in a && b[0] in b;
      var i :| 0 <= i < |b| && b[i] == a[0];
      var j :| 0 <= j < |a| && a[j] == b[0];
      if i != 0 && j != 0 {
        LessTransitive(a[0], b[0], a[0]);
        LessIrreflexive(a[0]);
      } else if i != 0 {
        LessIrreflexive(b[0]);
      } else if j != 0 {
        LessIrreflexive(a[0]);
      }
      assert a[0] == b[0];
      forall n | n in a[1..]
        ensures n in b[1..]
      {
        var k :| 0 <= k < |a| - 1 && a[1..][k] == n;
        assert Less(a[0], a[k + 1]);
        LessIrreflexive(n);
        assert n in b;
        var l :| 0 <= l < |b| && b[l] == n;
        assert l != 0;
        assert b[1..][l - 1] == n;
      }
      forall n | n in b[1..]
        ensures n in a[1..]
      {
        var k :| 0 <= k < |b| - 1 && b[1..][k] == n;
        assert Less(b[0], b[k + 1]);
        LessIrreflexive(n);
        assert n in a;
        var l :| 0 <= l < |a| && a[l] == n;
        assert l != 0;
        assert a[1..][l - 1] == n;
      }
      StrictlySortedUnique(a[1..], b[1..]);
      assert a == [a[0]] + a[1..] && b == [b[0]] + b[1..];
    } else {
      SameElementsEmpty(a, b);
    }
  }

  /** Lists with the same elements are both empty or both not. */
  lemma SameElementsEmpty(a: seq<string>, b: seq<string>)
    requires forall n :: n in a <==> n in b
    ensures a == [] <==> b == []
  {
    if a != [] {
      assert a[0] in b;
    }
    if b != [] {
      assert b[0] in a;
    }
  }

  // ---------------------------------------------------------------------------
  // Source-text heuristic

  const SimpleMarker := "@Controller"
  const ImportLine := "import webframe.core.annotation.Controller"
  const QualifiedMarker := "@webframe.core.annotation.Controller"

  /**
   * mentionsControllerAnnotation: a null text mentions nothing; otherwise the
   * qualified annotation, or the simple one together with its import.
   */
  predicate MentionsControllerAnnotation(content: Option<string>): (r: bool)
    ensures r <==> (content.Some? &&
      (Contains(content.value, QualifiedMarker) || (Contains(content.value, SimpleMarker) && Contains(content.value, ImportLine))))
  {
    if content.None? then false
    else
      var text := content.value;
      var hasSimple := Contains(text, SimpleMarker) && (Contains(text, ImportLine) || Contains(text, QualifiedMarker));
      var hasFqn := Contains(text, QualifiedMarker);
      hasSimple || hasFqn
  }
}
