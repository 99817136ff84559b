/** webframe.core.tools: the route object ModelView. */
module Tools {
  import opened Wrappers
  import opened JavaStrings
  import opened Reflection

  /** A value stored in a route's data map: a string, or some other object by identity. */
  datatype Datum = TextDatum(text: string) | ObjectDatum(id: nat)

  /** Every key is its own upper-case form, as addMethod and the verb constructor store them. */
  predicate UpperKeys(methods: map<string, MethodDecl>) {
    forall k :: k in methods ==> ToUpper(k) == k
  }

  /**
   * A route: its url, the handler per HTTP verb (keys upper-cased by the
   * methods that add them), the view, the controller class and a data map.
   */
  class ModelView {
    var url: string
    var methods: map<string, MethodDecl>
    var view: string
    var controller: Option<ClassDecl>
    var data: map<string, Datum>

    /** `new ModelView()`; the null url and view are written as "". */
    constructor Empty()
      ensures url == [] && methods == map[] && view == [] && controller.None? && data == map[]
    {
      url := [];
      methods := map[];
      view := [];
      controller := None;
      data := map[];
    }

    /** `new ModelView(url, methods, view, controller)`: a copy of the caller's verb map, empty for null. */
    constructor (url: string, methods: Option<map<string, MethodDecl>>, view: string, controller: Option<ClassDecl>)
      ensures this.url == url && this.view == view && this.controller == controller && data == map[]
      ensures this.methods == if methods.Some? then methods.value else map[]
    {
      this.url := url;
      this.methods := if methods.Some? then methods.value else map[];
      this.view := view;
      this.controller := controller;
      data := map[];
    }

    /** `new ModelView(url, method, view, controller, httpVerb)`: one entry under the upper-cased verb, or none when either is null. */
    constructor WithVerb(url: string, handler: Option<MethodDecl>, view: string, controller: Option<ClassDecl>, httpVerb: Option<string>)
      ensures this.url == url && this.view == view && this.controller == controller && data == map[]
      ensures handler.Some? && httpVerb.Some? ==> methods == map[ToUpper(httpVerb.value) := handler.value]
      ensures handler.None? || httpVerb.None? ==> methods == map[]
      ensures UpperKeys(methods)
    {
      this.url := url;
      this.methods := map[];
      if handler.Some? && httpVerb.Some? {
        ToUpperIdempotent(httpVerb.value);
        this.methods := map[ToUpper(httpVerb.value) := handler.value];
      }
      this.view := view;
      this.controller := controller;
      data := map[];
    }

    /** getMethod(httpMethod): the handler stored under the upper-cased verb, or null. */
    function GetMethod(httpMethod: string): Option<MethodDecl>
      reads this
    {
      var key := ToUpper(httpMethod);
      if key in methods then Some(methods[key]) else None
    }

    /** hasMethod(httpMethod) */
    predicate HasMethod(httpMethod: string)
      reads this
    {
      ToUpper(httpMethod) in methods
    }

    /** getMethods: a copy of the verb map; the route's own map stays as it is whatever the caller does with it. */
    method GetMethods() returns (copy: map<string, MethodDecl>)
      ensures copy == methods
    {
      copy := methods;
    }

    /** addMethod(httpMethod, method) */
    method AddMethod(httpMethod: string, handler: MethodDecl)
      modifies this
      ensures methods == old(methods)[ToUpper(httpMethod) := handler]
      ensures url == old(url) && view == old(view) && controller == old(controller) && data == old(data)
      ensures forall w :: ToUpper(w) == ToUpper(httpMethod) ==> HasMethod(w) && GetMethod(w) == Some(handler)
      ensures forall w :: ToUpper(w) != ToUpper(httpMethod) ==> HasMethod(w) == old(HasMethod(w)) && GetMethod(w) == old(GetMethod(w))
      ensures old(UpperKeys(methods)) ==> UpperKeys(methods)
    {
      ToUpperIdempotent(httpMethod);
      methods := methods[ToUpper(httpMethod) := handler];
    }

    /** setView(view) */
    method SetView(view: string)
      modifies this
      ensures this.view == view
      ensures url == old(url) && methods == old(methods) && controller == old(controller) && data == old(data)
    {
      this.view := view;
    }

    /** addData(key, value) */
    method AddData(key: string, value: Datum)
      modifies this
      ensures data == old(data)[key := value]
      ensures url == old(url) && methods == old(methods) && view == old(view) && controller == old(controller)
    {
      data := data[key := value];
    }

    /** getData */
    function GetData(): map<string, Datum>
      reads this
    {
      data
    }
  }

  /**
   * With upper-case keys, a verb is present exactly when some key equals it
   * ignoring case, and the lookup finds that key's handler.
   */
  lemma HasMethodIgnoresCase(methods: map<string, MethodDecl>, httpMethod: string)
    requires UpperKeys(methods)
    ensures ToUpper(httpMethod) in methods <==> exists k :: k in methods && EqualsIgnoreCase(k, httpMethod)
    ensures forall k :: k in methods && EqualsIgnoreCase(k, httpMethod) ==> k == ToUpper(httpMethod)
  {
    if exists k :: k in methods && EqualsIgnoreCase(k, httpMethod) {
      var k :| k in methods && EqualsIgnoreCase(k, httpMethod);
      assert ToUpper(k) == k;
    }
    var k := ToUpper(httpMethod);
    if k in methods {
      ToUpperIdempotent(httpMethod);
      assert EqualsIgnoreCase(k, httpMethod);
    }
  }
}
