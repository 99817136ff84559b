# webframe core, modelled in Dafny

webframe is a small Java web framework. It finds controller classes on the
classpath and turns their `@Router`, `@GET` and `@POST` methods into routes,
which are `ModelView` objects. It files the routes in a url table
(`ApplicationContext`) and looks up each request url. A lookup tries the exact key
first, then a pattern such as `/users/{id}`. A pattern match yields a
per-request copy of the route that carries the url parameters. The framework
binds request values to handler parameters (`ParameterResolver`), filters
static resource paths (`ResourceFilter`) and HTML-escapes echoed text
(`DispatcherServlet.escapeHtml`).

The project holds one module per core Java file:

- `UrlPatternMatcher`: `normalizeUrl`, `isInteger`/`isUuid`, template matching, `findMatchingPattern`, `extractParameters`;
- `ParameterResolver`: parameter binding, `validateController` and `ValidationReport`;
- `AnnotationScanner`: route construction, route collection, class-name derivation from jar entries and class-file trees, the filter and sort of `findClassesWithController`, the source-text heuristic;
- `Tools`: the `ModelView` class;
- `Core`: the `ApplicationContext` class and the holder of its singleton;
- `ResourceFilter`: the traversal test and the path sanitiser;
- `DispatcherServlet`: `escapeHtml`.

Four helper modules model the parts of the Java library the core relies on:

- `Wrappers`: `Option` and `Result`;
- `JavaStrings`:
  - `split`, with Java's dropping of trailing empty fields;
  - `contains`, `startsWith` and `endsWith`;
  - ASCII `toUpperCase`/`toLowerCase`;
  - `replace`;
  - the query strip `split("[?#]", 2)[0]`;
  - `replaceAll("//+", "/")`;
  - `compareTo`;
- `JavaNumbers`: `Integer.parseInt`, `Long.parseLong`, `Short.parseShort` and `Byte.parseByte`, with the Java ranges;
- `Reflection`: what reflection reports about classes. This is annotations with their declared defaults, parameter types, methods and classes, as values.

Some modelling choices:

- Java `null` is `None` wherever the code tests for it.
- Objects the source updates in place are classes with `modifies` frames: `ModelView`, `ValidationReport`, `ApplicationContext` and the singleton holder.
- Loops that fill a `StringBuilder`, a `HashMap` or a `Set` are `while`/`for` loops proved against a specification function.
- `HashMap` and `HashSet` iteration takes an arbitrary remaining key, so every proved property holds for every iteration order.

The source and its own documentation disagree in several places. The model follows the code:

- `ApplicationContext.findRoute` calls `route.getMethod()` and a four-argument constructor with a single `Method`. Neither exists in `ModelView.java`. The model copies the matched route's whole verb map, which is what `ModelView.java`'s map constructor does.
- `validateParameterAnnotation`'s "no explicit annotation" warning can never fire (`ParameterResolver.OnlyPrimitiveWarning`).
- `scanJarFile` tests only the path prefix. So an entry such as `webframes/A.class` is admitted for the package `webframe` (`AnnotationScanner.PackagePrefixAdmitsSibling`).
- Unlike `scanJarFileComplete`, `scanJarFile` keeps directory entries that end in `.class`. Unlike `scanDirectoryRecursive`, `scanDirectory` keeps names containing '$'. The later filter of `findClassesWithController` drops such names anyway.

## Model

| member | source | states |
|---|---|---|
| UrlPatternMatcher.NormalizeUrl | src/main/java/webframe/core/util/UrlPatternMatcher.java:52-82 | the segment loop builds exactly the normal form `Normalized(url)` that the lemmas below describe |
| UrlPatternMatcher.NormalizedShape | src/main/java/webframe/core/util/UrlPatternMatcher.java:52-82 | a null or empty url gives "/"; every result starts with "/"; a result other than "/" has no empty segment |
| UrlPatternMatcher.NormalizedIgnoresQuery | src/main/java/webframe/core/util/UrlPatternMatcher.java:58 | everything from the first '?' or '#' on has no effect on the normal form |
| UrlPatternMatcher.NormalizedSegments | src/main/java/webframe/core/util/UrlPatternMatcher.java:63-79 | the result's segments are the url's non-empty path segments in order: int-parsable ones become `{int}`, 8-4-4-4-12 hex ones `{uuid}`, and the others are kept verbatim |
| UrlPatternMatcher.NormalizedIdempotent | src/main/java/webframe/core/util/UrlPatternMatcher.java:52-82 | normalising a normalised url gives it back unchanged |
| UrlPatternMatcher.NormalizeSegmentsIdempotent | src/main/java/webframe/core/util/UrlPatternMatcher.java:72-78 | rewriting already rewritten segments changes none of them (`{int}` and `{uuid}` are neither integers nor UUIDs) |
| UrlPatternMatcher.MatchesPatternIffInstance | src/main/java/webframe/core/util/UrlPatternMatcher.java:113-152 | a url matches a template exactly when its query-free part is the leading-slashed template path with each `{name}` segment replaced by a non-empty, '/'-free string |
| UrlPatternMatcher.MatchIsInstance | src/main/java/webframe/core/util/UrlPatternMatcher.java:148-152 | a matching url's own segments are values that fill the template's placeholders |
| UrlPatternMatcher.InstanceMatches | src/main/java/webframe/core/util/UrlPatternMatcher.java:148-152 | any filling of the placeholders with non-empty, '/'-free values matches |
| UrlPatternMatcher.MatchesEmptyTemplate | src/main/java/webframe/core/util/UrlPatternMatcher.java:114-116 | the empty template matches exactly the urls whose query-free part is "/" |
| UrlPatternMatcher.FindMatchingPattern | src/main/java/webframe/core/util/UrlPatternMatcher.java:158-183 | the result follows the search order: the cleaned url if it is a key; else some key that pattern-matches; else some key with the same normal form; else null |
| UrlPatternMatcher.BestMatchIsKey | src/main/java/webframe/core/util/UrlPatternMatcher.java:158-183 | a non-null result is a key of the map; null is returned exactly when all three stages fail for every key |
| UrlPatternMatcher.ExtractParameters | src/main/java/webframe/core/util/UrlPatternMatcher.java:190-215 | the index loop's puts yield exactly `Parameters(url, template)`, described below |
| UrlPatternMatcher.ParametersSpec | src/main/java/webframe/core/util/UrlPatternMatcher.java:199-212 | different segment counts give the empty map; otherwise the keys are exactly the braced template segments' names, each bound to the url segment at its last occurrence |
| UrlPatternMatcher.SubstituteMatches | src/main/java/webframe/core/util/UrlPatternMatcher.java:148-152 | substituting clean values for a template's placeholders gives a url that matches the template |
| UrlPatternMatcher.SubstituteRoundTrip | src/main/java/webframe/core/util/UrlPatternMatcher.java:190-215 | for a well-formed template, the substituted url matches it, and extractParameters recovers exactly the substituted values, by name |
| JavaNumbers.ParseDecimal | src/main/java/webframe/core/util/UrlPatternMatcher.java:87-97 | every integer of a type's range, written in decimal, parses back to itself |
| JavaNumbers.ParseOutOfRange | src/main/java/webframe/core/util/UrlPatternMatcher.java:87-97 | a decimal outside the range fails to parse, so isInteger rejects it |
| JavaNumbers.ParseRejectsOther | src/main/java/webframe/core/util/UrlPatternMatcher.java:87-97 | a character that is neither a digit nor a leading sign makes the parse fail |
| ParameterResolver.GetParameterName | src/main/java/webframe/core/util/ParameterResolver.java:65-76 | the lookup name is the annotation's non-empty `value`, else its non-empty `name`, else the declared parameter name |
| ParameterResolver.LookupPrefersUrl | src/main/java/webframe/core/util/ParameterResolver.java:47-53 | a name present in the url parameters takes that value even if the request also has one; otherwise the request's value, or null when it has none |
| ParameterResolver.ResolveParameters | src/main/java/webframe/core/util/ParameterResolver.java:36-60 | the argument-filling loop computes `Resolution`: the first binding error, or one bound value per parameter |
| ParameterResolver.ResolutionSpec | src/main/java/webframe/core/util/ParameterResolver.java:36-60 | success iff every parameter binds; then exactly one value per declared parameter, in declaration order; an error is that of the first parameter that fails |
| ParameterResolver.ResolveErrPersists | src/main/java/webframe/core/util/ParameterResolver.java:40-57 | once a prefix of the parameters fails to bind, binding the whole list fails with that same error: the exception ends the loop |
| ParameterResolver.ResolveSpec | src/main/java/webframe/core/util/ParameterResolver.java:40-57 | for any per-parameter binding: success iff every parameter binds, then one value per parameter in order; otherwise the error of the first parameter that fails |
| ParameterResolver.RequiredMissingFails | src/main/java/webframe/core/util/ParameterResolver.java:97-105 | a null or blank value for a required annotated parameter is a missing-parameter error naming both names, even when a default is set |
| ParameterResolver.OptionalMissing | src/main/java/webframe/core/util/ParameterResolver.java:97-115 | for a missing value on a parameter that is not required, a non-empty default is converted and used; otherwise the result is getDefaultValue of the type: 0 for int, long, short and byte, false for boolean, '\0' for char, and null for an object type, wrappers included |
| ParameterResolver.DefaultValue | src/main/java/webframe/core/util/ParameterResolver.java:155-165 | getDefaultValue is 0 for int, long, short and byte, 0.0 for double and float, false for boolean, '\0' for char, and null exactly for the non-primitive types |
| ParameterResolver.ConvertBoolean | src/main/java/webframe/core/util/ParameterResolver.java:132-133 | boolean conversion never fails and gives true iff the value is "true" or "on" in any case, or exactly "1" |
| ParameterResolver.ConvertTextual | src/main/java/webframe/core/util/ParameterResolver.java:122-139 | a String target takes the value unchanged; a char or Character target takes its first character, or '\0' for the empty string |
| ParameterResolver.ConvertIntegralRoundTrip | src/main/java/webframe/core/util/ParameterResolver.java:124-148 | an int, long, short or byte parameter, primitive or wrapper, gets back any value of its range written in decimal; a decimal outside that range is a conversion error naming the value, the type and the parameter |
| ParameterResolver.ConvertIntegralUntrimmed | src/main/java/webframe/core/util/ParameterResolver.java:124-148 | integral values are not trimmed: for int, long, short and byte, primitive or wrapper, a leading space is a conversion error naming the type and the parameter |
| ParameterResolver.ConvertUnsupported | src/main/java/webframe/core/util/ParameterResolver.java:142-143 | an unsupported target type is an error naming the parameter and the type |
| ParameterResolver.ValidationReport.constructor | src/main/java/webframe/core/util/ParameterResolver.java:218-220 | a new report has no warnings, no errors and no issues |
| ParameterResolver.ValidationReport.AddWarning | src/main/java/webframe/core/util/ParameterResolver.java:222-224 | appends to the warnings only; the report then has issues |
| ParameterResolver.ValidationReport.AddError | src/main/java/webframe/core/util/ParameterResolver.java:226-228 | appends to the errors only; the report then has issues |
| ParameterResolver.OnlyPrimitiveWarning | src/main/java/webframe/core/util/ParameterResolver.java:196-211 | the "no explicit annotation" test can never fire; the only warning is the primitive one, added exactly for a not-required, default-less primitive |
| ParameterResolver.ValidateParameterAnnotation | src/main/java/webframe/core/util/ParameterResolver.java:192-213 | appends exactly that parameter's warnings to the report, in order, and adds no error |
| ParameterResolver.ValidateController | src/main/java/webframe/core/util/ParameterResolver.java:175-190 | a fresh report holding every annotated parameter's warnings, method by method, and no error; it has issues iff some method has a flagged parameter |
| ParameterResolver.MethodWarningsEmpty | src/main/java/webframe/core/util/ParameterResolver.java:181-186 | a method adds no warning iff none of its annotated parameters is an optional primitive without default |
| ParameterResolver.ControllerWarningsEmpty | src/main/java/webframe/core/util/ParameterResolver.java:178-187 | a controller gets no warning iff no method has such a parameter |
| AnnotationScanner.ProcessMethodAnnotations | src/main/java/webframe/core/util/AnnotationScanner.java:230-299 | null exactly when none of Router, GET or POST is present; otherwise a fresh route whose url, verb map, view and controller are those of `RouteOf` |
| AnnotationScanner.RouteVerbMap | src/main/java/webframe/core/util/AnnotationScanner.java:251-294 | the verb map is non-empty, upper-cased, maps every verb to the method and has GET/POST when those annotations are present; an empty Router list gives exactly GET, POST, PUT, DELETE, PATCH; a non-empty Router list alone gives exactly the upper-cased listed verbs |
| AnnotationScanner.FindRouterMethods | src/main/java/webframe/core/util/AnnotationScanner.java:196-220 | one fresh, distinct route object per element of `AllRoutes`, in order, each describing that route |
| AnnotationScanner.MethodRoutesMembers | src/main/java/webframe/core/util/AnnotationScanner.java:211-216 | a route is among a class's routes iff some method of the class is annotated and yields it |
| AnnotationScanner.MethodRoutesAll | src/main/java/webframe/core/util/AnnotationScanner.java:211-216 | when every method is annotated, there is one route per method, in the order reflection reports the methods |
| AnnotationScanner.MethodRoutesNone | src/main/java/webframe/core/util/AnnotationScanner.java:211-216 | when no method is annotated, the class contributes no route |
| AnnotationScanner.MethodRoutesSpec | src/main/java/webframe/core/util/AnnotationScanner.java:211-216 | the routes of a class are exactly those of its annotated methods; all methods annotated gives one route per method, in order; none gives no route |
| AnnotationScanner.RoutesSpec | src/main/java/webframe/core/util/AnnotationScanner.java:203-217 | a route is collected iff it comes from an annotated method of a class carrying `@Controller` |
| AnnotationScanner.RoutesSkipNonController | src/main/java/webframe/core/util/AnnotationScanner.java:205-207 | a class without `@Controller` contributes no route |
| AnnotationScanner.ScanJarFileComplete | src/main/java/webframe/core/util/AnnotationScanner.java:365-375 | adds to the set exactly the class names of the non-directory `.class` entries without '$' |
| AnnotationScanner.ScanJarFile | src/main/java/webframe/core/util/AnnotationScanner.java:473-483 | adds to the set exactly the class names of the `.class` entries without '$' whose path starts with the package path |
| AnnotationScanner.ClassNameOfPath | src/main/java/webframe/core/util/AnnotationScanner.java:371 | the entry `d1/.../dn/S.class` yields the class name `d1.....dn.S` |
| AnnotationScanner.CompleteNamesDollarFree | src/main/java/webframe/core/util/AnnotationScanner.java:370 | no name from scanJarFileComplete contains '$' |
| AnnotationScanner.PackagePrefixAdmitsSibling | src/main/java/webframe/core/util/AnnotationScanner.java:478 | the prefix test admits `webframes/A.class` for the package path `webframe` |
| AnnotationScanner.ScanDirectoryRecursive | src/main/java/webframe/core/util/AnnotationScanner.java:346-360 | adds to the set exactly the qualified names of the '$'-free `.class` files of the tree, with the package built from the directory names |
| AnnotationScanner.ScanDirectory | src/main/java/webframe/core/util/AnnotationScanner.java:447-460 | adds to the set exactly `pkg.Simple` for every `.class` file of the tree |
| AnnotationScanner.TreeNamesOfFile | src/main/java/webframe/core/util/AnnotationScanner.java:354-357 | a '$'-free class file under `pkg` contributes the single name `pkg.Simple`, or `Simple` under the empty package |
| AnnotationScanner.PackagePath | src/main/java/webframe/core/util/AnnotationScanner.java:127-128 | a null or blank package means the whole classpath; otherwise the package with every '.' written as '/' |
| AnnotationScanner.FindClassesWithController | src/main/java/webframe/core/util/AnnotationScanner.java:172-188 | the result is strictly ascending, so distinct; it holds exactly the collected names the loader finds annotated; none of them contains '$' |
| AnnotationScanner.Sort | src/main/java/webframe/core/util/AnnotationScanner.java:187 | `Collections.sort` on distinct names gives the same names in strictly ascending `compareTo` order (the same as Java's for names inside the Basic Multilingual Plane) |
| AnnotationScanner.InsertSpec | src/main/java/webframe/core/util/AnnotationScanner.java:187 | inserting a new name into an ascending list keeps it ascending and adds exactly that name |
| AnnotationScanner.StrictlySortedUnique | src/main/java/webframe/core/util/AnnotationScanner.java:172-188 | two strictly ascending lists with the same names are equal, so the result does not depend on the set's iteration order |
| AnnotationScanner.MentionsControllerAnnotation | src/main/java/webframe/core/util/AnnotationScanner.java:404-412 | true iff the text contains the qualified annotation, or both the simple annotation and the import line; null is false |
| Tools.ModelView.Empty | src/main/java/webframe/core/tools/ModelView.java:23 | a route with nothing set: no verbs and no data |
| Tools.ModelView.constructor | src/main/java/webframe/core/tools/ModelView.java:33-41 | stores url, view and controller, and a copy of the given verb map, empty for null; no data |
| Tools.ModelView.WithVerb | src/main/java/webframe/core/tools/ModelView.java:52-60 | one entry under the upper-cased verb when both handler and verb are non-null, else no entry |
| Tools.ModelView.GetMethods | src/main/java/webframe/core/tools/ModelView.java:88-90 | returns the route's verb map as a value, which the caller cannot change through the route |
| Tools.ModelView.AddMethod | src/main/java/webframe/core/tools/ModelView.java:125-127 | afterwards every verb with the same upper-case form is present and yields the handler; other verbs and all other fields are unchanged; upper-case keys stay upper-case |
| Tools.ModelView.SetView | src/main/java/webframe/core/tools/ModelView.java:115-117 | the view is the new one; url, verbs, controller and data are unchanged |
| Tools.ModelView.AddData | src/main/java/webframe/core/tools/ModelView.java:154-156 | the key maps to the value, other entries are unchanged, and the other fields too |
| Tools.HasMethodIgnoresCase | src/main/java/webframe/core/tools/ModelView.java:135-137 | with upper-case keys, hasMethod(w) holds iff some key equals w ignoring case, and that key is the one getMethod reads |
| Core.ApplicationContext.constructor | src/main/java/webframe/core/ApplicationContext.java:19-22 | the table's keys are exactly the urls of the collected routes; each value is a fresh route loaded from the last route with its url |
| Core.ApplicationContext.LoadRoutes | src/main/java/webframe/core/ApplicationContext.java:34-46 | the table becomes the old table updated by each route under its url, later routes replacing earlier ones; each route has been warmed up |
| Core.IndexSpec | src/main/java/webframe/core/ApplicationContext.java:37-45 | the index's keys are exactly the urls; each url maps to the route of its last occurrence |
| Core.ApplicationContext.ExecuteMethodForView | src/main/java/webframe/core/ApplicationContext.java:51-75 | a returned route sets the view and adds its data entries; a returned string only gives the view to set; any other result or an exception keeps the default view |
| Core.ApplicationContext.FindRoute | src/main/java/webframe/core/ApplicationContext.java:81-110 | an exact key gives the stored route object itself; otherwise null exactly when the pattern search finds nothing; otherwise a fresh per-request copy of the matched key's route |
| Core.ApplicationContext.CopyForRequest | src/main/java/webframe/core/ApplicationContext.java:91-105 | the copy has the request url, the template's verbs, view and controller, and its data plus `urlParam_<name>` for each extracted parameter |
| Core.ApplicationContext.AddParameterData | src/main/java/webframe/core/ApplicationContext.java:100-103 | the parameter loop adds exactly the prefixed parameter entries to the copy's data and changes nothing else |
| Core.PrefixedSpec | src/main/java/webframe/core/ApplicationContext.java:101-103 | the prefixed map has exactly the keys `urlParam_<name>` for the parameters, each holding that parameter's value as text |
| Core.ApplicationContext.GetAllRoutes | src/main/java/webframe/core/ApplicationContext.java:115-117 | returns the table as a value: a copy the caller cannot change it through |
| Core.ContextHolder.GetInstance | src/main/java/webframe/core/ApplicationContext.java:24-29 | the first call builds and keeps a context; every later call returns that same instance |
| ResourceFilter.TraversalIff | src/main/java/webframe/core/ResourceFilter.java:72-88 | the seven tests come down to: null, "..", "%2e%2e" in any letter case, or no leading "/" |
| ResourceFilter.SanitizeResourcePath | src/main/java/webframe/core/ResourceFilter.java:95-139 | the loop computes `Sanitized(path)`; null or empty input gives null |
| ResourceFilter.SanitizedIff | src/main/java/webframe/core/ResourceFilter.java:101-138 | accepted iff non-empty, no non-empty segment dangerous, some segment, and the rebuilt path ends in ".jsp" or ".html"; that rebuilt path is the result |
| ResourceFilter.SanitizedRejects | src/main/java/webframe/core/ResourceFilter.java:118-123 | one segment that is "..", ".", contains '\' or "%2e" in any case makes the result null |
| ResourceFilter.SanitizedShape | src/main/java/webframe/core/ResourceFilter.java:101-138 | a result starts with "/", ends in ".jsp" or ".html", and its segments are exactly the input's non-empty segments in order, with no empty one |
| ResourceFilter.SanitizedIdempotent | src/main/java/webframe/core/ResourceFilter.java:95-139 | sanitising a sanitised path gives it back unchanged |
| DispatcherServlet.EscapeHtml | src/main/java/webframe/core/DispatcherServlet.java:37-44 | null gives ""; otherwise each character is replaced by its own escape |
| DispatcherServlet.ChainIsEscapeEach | src/main/java/webframe/core/DispatcherServlet.java:39-43 | because '&' is replaced first, the five chained replaces equal escaping each character independently |
| DispatcherServlet.EscapedIsSafe | src/main/java/webframe/core/DispatcherServlet.java:39-43 | the output contains no '<', '>', '"' or '\'' |
| DispatcherServlet.EscapePlain | src/main/java/webframe/core/DispatcherServlet.java:39-43 | a string with none of the five special characters is returned unchanged |
| DispatcherServlet.EscapeRoundTrip | src/main/java/webframe/core/DispatcherServlet.java:39-43 | escaping loses nothing: decoding the five entities gives the original string back |

## Left out

- Classpath, directory and jar I/O and class loading:
  - `scanFullClasspath`, `scanDirectoryURL`, `scanJarURL`, `findSourceFilesWithController` and `collectJavaSources` read the file system, so they are not modelled;
  - the scans take their input as a list of jar entries or a tree of file nodes;
  - an unreadable directory (`listFiles()` returning null) is a directory with no children;
  - `Class.forName` plus `getAnnotation(Controller.class)` is the oracle `isController`, false for a class that does not load.
- `findAllRoutes("webframe")` and `findControllerClasses`: class discovery is I/O. The `ApplicationContext` constructor receives the controller classes as a parameter.
- The reflective warm-up in `executeMethodForView`: instantiating the controller, invoking the handler and catching exceptions are foreign calls. Their outcome is the caller-supplied `Invocation`: a returned route with its view and data, a returned string, another object, or an exception. The `System.err` messages are not modelled.
- Core.ApplicationContext.ExecuteMethodForView: a returned route whose view is null is written with the view "", because route views are strings in the model.
- `Double.parseDouble` and `Float.parseFloat`: floating point. They are the caller-supplied oracle `FloatParser`, and `getDefaultValue`'s 0.0 is an abstract zero.
- `HttpServletRequest.getParameter`, `doGet`, `doFilter`, `URLDecoder.decode` and `getResourceAsStream`: servlet plumbing. The request is a map from names to values.
- The Java regex engine behind `templateToRegex` and `isUuid`:
  - matching is segment-wise, and exact for well-formed templates, whose placeholders are whole `{name}` segments and whose literal segments are free of `{`, `}`, `[`, `]` and `\`;
  - the round-trip lemma assumes such a template.
- HashMap order: where the source returns the first key its iteration meets, the model allows any key of that stage.
- The singleton's thread safety: concurrency. `getInstance` is modelled single-threaded, and the static field is the `ContextHolder` object.
- Core.ApplicationContext.FindRoute: the per-request copy takes the template route's whole verb map. The source calls a `getMethod()` and a four-argument constructor with a single method, neither of which `ModelView.java` declares.
- `src/main/java/webframe/core/tools/modelView.java` is not part of this model. It is an older declaration of the same class, with getters and setters only.
- Strings are sequences of Unicode scalar values, not of UTF-16 code units as in Java. `JavaStrings.Less` (and so `AnnotationScanner.Sort` and `FindClassesWithController`) compares scalar values where `String.compareTo` compares code units, and the char conversion of `ConvertValue` takes a whole character where `charAt(0)` takes the first code unit. The two agree on strings inside the Basic Multilingual Plane (U+0000 to U+FFFF) and can differ on characters outside it.
- Case mapping and digits are ASCII only. `toUpperCase`, `toLowerCase` and `equalsIgnoreCase` change only 'a'-'z' and 'A'-'Z'. Locale rules and other Unicode letters are not modelled.
- Tools.ModelView.Empty: the default constructor's null url and view are written as "".
- Tools.ModelView.GetData: `getData` exposes the live map, and the model returns it as a value. The one caller that mutates the returned map (`findRoute`'s `putAll` on the fresh copy) is modelled as an update of the copy's data.
- Warnings are the `Warning` datatype, naming the method and the parameter, instead of French sentences. `ValidationReport.toString` and its emoji formatting are not modelled.
- AnnotationScanner.Sort: requires distinct names. Its one caller passes names drawn from a set.
- The annotations' defaults (`required = true`, empty `value`, `name`, `defaultValue`, `view` and `methods`) are fields of the `Reflection` records. Controller's `base` prefix is never applied by the code, so it is not modelled.
- Binding of whole objects or maps: no code for it exists in the source.
