/** atom/errors.py: the `status` class decorator and the module-level registry `excs`
    from status codes to exception classes, `HTTPException` instances as responses, and
    `abort`, which picks the class for a status code. `HTTPStatus` (for descriptions) is a
    parameter. */
module Errors {
  import opened Wrappers
  import Dicts

  /** An exception class as the registry sees it: its name, its effective `status_code`
      attribute (possibly inherited; `None` on `HTTPException`), and whether its
      constructor needs a `location` argument (only `Found`'s does). */
  datatype ExcClass = ExcClass(name: string, statusCode: Option<int>, needsLocation: bool)

  type Registry = Dicts.Dict<int, ExcClass>

  /** An `HTTPException` instance: a response with the reason as its body. */
  datatype HttpException = HttpException(cls: ExcClass, body: Option<string>, status: Option<int>, contentType: string)

  datatype AbortError =
    | InvalidHttpStatus(code: int)    // ValueError from HTTPStatus(code)
    | MissingLocation                 // TypeError: Found.__init__ needs `location`

  /** Python truthiness of a `status_code` attribute. */
  predicate HasTruthyCode(cls: ExcClass) {
    cls.statusCode.Some? && cls.statusCode.value != 0
  }

  /** The class `@status(code)` leaves behind: a truthy code it already has, its own or
      inherited, wins over `code`. */
  function Decorated(cls: ExcClass, code: int): (r: ExcClass)
    ensures r.name == cls.name && r.needsLocation == cls.needsLocation
    ensures HasTruthyCode(cls) ==> r == cls
    ensures !HasTruthyCode(cls) ==> r.statusCode == Some(code)
  {
    if HasTruthyCode(cls) then cls else cls.(statusCode := Some(code))
  }

  /** `@status(code)` applied to `cls`: the decorated class is registered under its
      effective code, replacing whatever was there; every other entry is kept. */
  function Status(reg: Registry, cls: ExcClass, code: int): (r: (Registry, ExcClass))
    ensures r.1 == Decorated(cls, code) && r.1.statusCode.Some?
    ensures Dicts.Get(r.0, r.1.statusCode.value) == Some(r.1)
    ensures forall k :: k != r.1.statusCode.value ==> Dicts.Get(r.0, k) == Dicts.Get(reg, k)
    ensures Dicts.Valid(reg) ==> Dicts.Valid(r.0)
  {
    var cls' := Decorated(cls, code);
    var key := cls'.statusCode.value;
    var reg' := Dicts.Set(reg, key, cls');
    Dicts.SetLookups(reg, key, cls');
    assert Dicts.Valid(reg) ==> Dicts.Valid(reg') by {
      if Dicts.Valid(reg) {
        Dicts.SetSpec(reg, key, cls');
      }
    }
    (reg', cls')
  }

  // ---------------------------------------------------------------------------
  // The classes of the module
  // ---------------------------------------------------------------------------

  const HTTPException := ExcClass("HTTPException", None, false)

  /** The subclasses as declared: each inherits `status_code = None`; `@status` gives
      them their codes. */
  const Declarations: seq<(ExcClass, int)> := [
    (ExcClass("NotFound", None, false), 404),
    (ExcClass("BadRequest", None, false), 400),
    (ExcClass("Forbidden", None, false), 403),
    (ExcClass("Unauthorized", None, false), 401),
    (ExcClass("Found", None, true), 302)]

  const NotFound := ExcClass("NotFound", Some(404), false)
  const BadRequest := ExcClass("BadRequest", Some(400), false)
  const Forbidden := ExcClass("Forbidden", Some(403), false)
  const Unauthorized := ExcClass("Unauthorized", Some(401), false)
  const Found := ExcClass("Found", Some(302), true)

  /** The class declarations in module order, each run through its decorator. */
  function Load(reg: Registry, decls: seq<(ExcClass, int)>): Registry
    decreases |decls|
  {
    if |decls| == 0 then reg
    else Load(Status(reg, decls[0].0, decls[0].1).0, decls[1..])
  }

  /** `excs` once the module has been loaded. */
  function ModuleRegistry(): Registry {
    Load(Dicts.Empty(), Declarations)
  }

  /** The entries the declarations contribute: each class under its code, with that code. */
  function Registered(decls: seq<(ExcClass, int)>): (es: seq<(int, ExcClass)>)
    ensures |es| == |decls|
    ensures forall i :: 0 <= i < |decls| ==> es[i] == (decls[i].1, decls[i].0.(statusCode := Some(decls[i].1)))
    decreases |decls|
  {
    if |decls| == 0 then []
    else [(decls[0].1, decls[0].0.(statusCode := Some(decls[0].1)))] + Registered(decls[1..])
  }

  /** Decorating a class without a code of its own under a code not yet registered
      appends one entry. */
  lemma StatusAppends(reg: Registry, cls: ExcClass, code: int)
    requires cls.statusCode.None? && !Dicts.HasKey(reg, code)
    ensures Status(reg, cls, code).0 == Dicts.Dict(reg.entries + [(code, cls.(statusCode := Some(code)))])
  {
    Dicts.SetNew(reg, code, cls.(statusCode := Some(code)));
  }

  /** The declarations after the first still meet `LoadAppends`'s requirements once the
      first has been appended. */
  lemma FreshAfterAppend(reg: Registry, e: (int, ExcClass), decls: seq<(ExcClass, int)>)
    requires |decls| > 0 && e.0 == decls[0].1
    requires forall i :: 0 <= i < |decls| ==> decls[i].0.statusCode.None? && !Dicts.HasKey(reg, decls[i].1)
    requires forall i, j :: 0 <= i < j < |decls| ==> decls[i].1 != decls[j].1
    ensures forall i :: 0 <= i < |decls[1..]| ==>
      decls[1..][i].0.statusCode.None? && !Dicts.HasKey(Dicts.Dict(reg.entries + [e]), decls[1..][i].1)
    ensures forall i, j :: 0 <= i < j < |decls[1..]| ==> decls[1..][i].1 != decls[1..][j].1
  {
    var rest := decls[1..];
    forall i | 0 <= i < |rest|
      ensures rest[i].0.statusCode.None? && !Dicts.HasKey(Dicts.Dict(reg.entries + [e]), rest[i].1)
    {
      assert rest[i] == decls[i + 1];
      Dicts.HasKeyAppend(reg, e, rest[i].1);
    }
    forall i, j | 0 <= i < j < |rest|
      ensures rest[i].1 != rest[j].1
    {
      assert rest[i] == decls[i + 1] && rest[j] == decls[j + 1];
    }
  }

  /** One declaration loaded: its entry is appended, and the rest are loaded after it. */
  lemma LoadStep(reg: Registry, decls: seq<(ExcClass, int)>)
    requires |decls| > 0 && decls[0].0.statusCode.None? && !Dicts.HasKey(reg, decls[0].1)
    ensures Load(reg, decls) == Load(Dicts.Dict(reg.entries + [(decls[0].1, decls[0].0.(statusCode := Some(decls[0].1)))]), decls[1..])
  {
    StatusAppends(reg, decls[0].0, decls[0].1);
  }

  /** `Registered` peels off its first declaration onto the entries before it. */
  lemma RegisteredCons(prefix: seq<(int, ExcClass)>, decls: seq<(ExcClass, int)>)
    requires |decls| > 0
    ensures prefix + Registered(decls) == (prefix + [(decls[0].1, decls[0].0.(statusCode := Some(decls[0].1)))]) + Registered(decls[1..])
  {
    var e := (decls[0].1, decls[0].0.(statusCode := Some(decls[0].1)));
    assert Registered(decls) == [e] + Registered(decls[1..]);
  }

  /** Classes without codes of their own, decorated under distinct codes not yet
      registered, are appended one after the other. */
  lemma {:induction false} LoadAppends(reg: Registry, decls: seq<(ExcClass, int)>)
    requires forall i :: 0 <= i < |decls| ==> decls[i].0.statusCode.None? && !Dicts.HasKey(reg, decls[i].1)
    requires forall i, j :: 0 <= i < j < |decls| ==> decls[i].1 != decls[j].1
    ensures Load(reg, decls) == Dicts.Dict(reg.entries + Registered(decls))
    decreases |decls|
  {
    if |decls| > 0 {
      var e := (decls[0].1, decls[0].0.(statusCode := Some(decls[0].1)));
      LoadStep(reg, decls);
      RegisteredCons(reg.entries, decls);
      FreshAfterAppend(reg, e, decls);
      LoadAppends(Dicts.Dict(reg.entries + [e]), decls[1..]);
    }
  }

  /** The module's declarations have no codes of their own and distinct codes. */
  lemma DeclarationsDistinct()
    ensures forall i :: 0 <= i < |Declarations| ==> Declarations[i].0.statusCode.None? && !Dicts.HasKey(Dicts.Empty<int, ExcClass>(), Declarations[i].1)
    ensures forall i, j :: 0 <= i < j < |Declarations| ==> Declarations[i].1 != Declarations[j].1
  {
  }

  lemma RegisteredDeclarations()
    ensures Registered(Declarations) == [(404, NotFound), (400, BadRequest), (403, Forbidden), (401, Unauthorized), (302, Found)]
  {
  }

  /** `excs` as the module leaves it. */
  const Excs: Registry := Dicts.Dict([(404, NotFound), (400, BadRequest), (403, Forbidden), (401, Unauthorized), (302, Found)])

  /** After loading, the registry holds exactly the five subclasses, in declaration order,
      each under its code. */
  lemma ModuleRegistryContents()
    ensures ModuleRegistry() == Excs
  {
    DeclarationsDistinct();
    LoadAppends(Dicts.Empty(), Declarations);
    RegisteredDeclarations();
  }

  /** Lookups in the loaded registry: the five codes find their classes, every other code
      finds nothing. */
  lemma ModuleRegistryLookup(code: int)
    ensures Dicts.Get(Excs, code) ==
      if code == 404 then Some(NotFound)
      else if code == 400 then Some(BadRequest)
      else if code == 403 then Some(Forbidden)
      else if code == 401 then Some(Unauthorized)
      else if code == 302 then Some(Found)
      else None
  {
    var reg := Excs;
    assert Dicts.Valid(reg) by {
      forall i, j | 0 <= i < j < |reg.entries|
        ensures reg.entries[i].0 != reg.entries[j].0
      {
      }
    }
    if code == 404 {
      Dicts.GetEntry(reg, 0);
    } else if code == 400 {
      Dicts.GetEntry(reg, 1);
    } else if code == 403 {
      Dicts.GetEntry(reg, 2);
    } else if code == 401 {
      Dicts.GetEntry(reg, 3);
    } else if code == 302 {
      Dicts.GetEntry(reg, 4);
    } else {
      assert code !in Dicts.Keys(reg);
      Dicts.InKeys(reg, code);
    }
  }

  // ---------------------------------------------------------------------------
  // HTTPException and abort
  // ---------------------------------------------------------------------------

  /** `cls(reason=..., content_type=...)` for a class whose constructor takes those two:
      the status is the class's `status_code`, the content type defaults to "text/plain". */
  function Instantiate(cls: ExcClass, reason: Option<string>, contentType: Option<string>): (e: HttpException)
    ensures e.cls == cls && e.body == reason && e.status == cls.statusCode
    ensures contentType.Some? && contentType.value != "" ==> e.contentType == contentType.value
    ensures contentType.None? || contentType.value == "" ==> e.contentType == "text/plain"
  {
    var ct := if contentType.Some? && contentType.value != "" then contentType.value else "text/plain";
    HttpException(cls, reason, cls.statusCode, ct)
  }

  /** `abort(code, message=..., content_type=...)`, which returns the exception instead of
      raising it. Without a (truthy) message the code must be an HTTP status, and its
      description becomes the message; `describe` stands for `HTTPStatus(code).description`,
      `None` for the ValueError of an unknown status. The class is the registered one, or
      `HTTPException` for an unregistered code; `Found` cannot be built without `location`. */
  function Abort(reg: Registry, code: int, message: Option<string>, contentType: Option<string>,
                 describe: int -> Option<string>): (r: Result<HttpException, AbortError>)
    ensures var truthy := message.Some? && message.value != "";
      && (!truthy && describe(code).None? ==> r == Err(InvalidHttpStatus(code)))
      && (truthy || describe(code).Some? ==>
            var cls := Dicts.Get(reg, code).GetOr(HTTPException);
            && (cls.needsLocation ==> r == Err(MissingLocation))
            && (!cls.needsLocation ==>
                  r == Ok(Instantiate(cls, if truthy then message else describe(code), contentType))))
  {
    var text :- if message.Some? && message.value != "" then Ok(message.value)
                else if describe(code).Some? then Ok(describe(code).value)
                else Err(InvalidHttpStatus(code));
    var cls := Dicts.Get(reg, code).GetOr(HTTPException);
    if cls.needsLocation then Err(MissingLocation)
    else Ok(Instantiate(cls, Some(text), contentType))
  }

  /** With the module's registry and a message: 302 always fails for want of a location;
      any other code gives an instance of its registered class, carrying that code as its
      status, or of `HTTPException`, with no status at all, for an unregistered code. */
  lemma AbortOnModuleRegistry(code: int, message: string, contentType: Option<string>, describe: int -> Option<string>)
    requires message != ""
    ensures code == 302 ==> Abort(Excs, code, Some(message), contentType, describe) == Err(MissingLocation)
    ensures code != 302 ==> Abort(Excs, code, Some(message), contentType, describe).Ok?
    ensures code in [404, 400, 403, 401] ==>
      Abort(Excs, code, Some(message), contentType, describe).value.status == Some(code)
    ensures code !in [404, 400, 403, 401, 302] ==>
      Abort(Excs, code, Some(message), contentType, describe) == Ok(Instantiate(HTTPException, Some(message), contentType))
  {
    ModuleRegistryLookup(code);
  }
}
