// The registry of overridable hooks: functions registered under a name are
// tried newest first, and a hook may decline by raising FallbackException so
// that the next one is tried.

module Hooks {
  import opened Wrappers

  /** The Python values the hooks are called with and return, as far as the
      default hooks look at them: an `Sdf.Layer` (its identifier and its
      `str`), any other object (its `str`), or `None`. */
  datatype PyValue = LayerValue(identifier: string, text: string) | ObjectValue(text: string) | NoneValue

  /** One call of a hook: it returns a value, raises `FallbackException`, or
      raises any other exception, named by its class. */
  datatype Outcome = Returned(value: PyValue) | Fallback | Raised(exception: string)

  type Hook = PyValue -> Outcome

  /** `Call` on a name nobody registered raises `KeyError`; an exception other
      than `FallbackException` raised by a hook propagates out of `Call`. */
  datatype CallError = KeyError(name: string) | Propagated(exception: string)

  /** What the first hook that does not fall back gives, trying them in
      order: its value, or the exception it raised; `None` when every one
      falls back. */
  function FirstResult(hooks: seq<Hook>, arg: PyValue): (r: Result<Option<PyValue>, CallError>)
    ensures r.Failure? ==> r.error.Propagated?
  {
    if hooks == [] then Success(None)
    else match hooks[0](arg)
      case Returned(v) => Success(Some(v))
      case Fallback => FirstResult(hooks[1..], arg)
      case Raised(e) => Failure(Propagated(e))
  }

  /** The first hook that does not fall back, if any. */
  predicate DecidesAt(hooks: seq<Hook>, arg: PyValue, i: nat)
  {
    i < |hooks| && !hooks[i](arg).Fallback? && forall j :: 0 <= j < i ==> hooks[j](arg).Fallback?
  }

  /** The result is `None` exactly when every hook falls back. Otherwise the
      first hook that does not fall back decides it: its value when it
      returned, or its exception, propagated, when it raised. */
  lemma {:induction false} FirstResultSpec(hooks: seq<Hook>, arg: PyValue)
    ensures FirstResult(hooks, arg) == Success(None) <==> forall i :: 0 <= i < |hooks| ==> hooks[i](arg).Fallback?
    ensures FirstResult(hooks, arg) != Success(None) ==>
      exists i: nat :: DecidesAt(hooks, arg, i)
        && (hooks[i](arg).Returned? ==> FirstResult(hooks, arg) == Success(Some(hooks[i](arg).value)))
        && (hooks[i](arg).Raised? ==> FirstResult(hooks, arg) == Failure(Propagated(hooks[i](arg).exception)))
  {
    if hooks != [] && hooks[0](arg).Fallback? {
      FirstResultSpec(hooks[1..], arg);
      if FirstResult(hooks[1..], arg) != Success(None) {
        var i: nat :| DecidesAt(hooks[1..], arg, i)
          && (hooks[1..][i](arg).Returned? ==> FirstResult(hooks[1..], arg) == Success(Some(hooks[1..][i](arg).value)))
          && (hooks[1..][i](arg).Raised? ==> FirstResult(hooks[1..], arg) == Failure(Propagated(hooks[1..][i](arg).exception)));
        assert hooks[1..][i] == hooks[i + 1];
        assert forall j :: 1 <= j < i + 1 ==> hooks[1..][j - 1] == hooks[j];
        assert DecidesAt(hooks, arg, i + 1);
      } else {
        assert forall i :: 1 <= i < |hooks| ==> hooks[1..][i - 1] == hooks[i];
      }
    } else if hooks != [] {
      assert DecidesAt(hooks, arg, 0);
    }
  }

  /** `UsdQtHooks.Call` on the registry `registered`. */
  function Dispatch(registered: map<string, seq<Hook>>, name: string, arg: PyValue): (r: Result<Option<PyValue>, CallError>)
    ensures r == Failure(KeyError(name)) <==> name !in registered
    ensures r.Failure? && name in registered ==> r.error.Propagated?
  {
    if name !in registered then Failure(KeyError(name)) else FirstResult(registered[name], arg)
  }

  /** The registry after `Register(name, hook)`: `hook` goes in front of
      whatever was registered under `name`. */
  function Registered(registered: map<string, seq<Hook>>, name: string, hook: Hook): (r: map<string, seq<Hook>>)
  {
    registered[name := [hook] + (if name in registered then registered[name] else [])]
  }

  /** After `Register(name, hook)`, a call of `name` gets `hook`'s value or
      exception if it does not fall back, and otherwise what the call got
      before (nothing if the name was new); calls of other names are
      unaffected. */
  lemma RegisterThenCall(registered: map<string, seq<Hook>>, name: string, hook: Hook, other: string, arg: PyValue)
    ensures Dispatch(Registered(registered, name, hook), name, arg) ==
      if hook(arg).Returned? then Success(Some(hook(arg).value))
      else if hook(arg).Raised? then Failure(Propagated(hook(arg).exception))
      else if name in registered then FirstResult(registered[name], arg)
      else Success(None)
    ensures other != name ==> Dispatch(Registered(registered, name, hook), other, arg) == Dispatch(registered, other, arg)
  {
    var hooks := Registered(registered, name, hook)[name];
    assert hooks[0] == hook;
    assert hooks[1..] == if name in registered then registered[name] else [];
    assert FirstResult([], arg) == Success(None);
  }

  /** `GetId`: a layer's identifier, and `str` of anything else. */
  function GetId(layer: PyValue): (r: string)
  {
    match layer
    case LayerValue(identifier, _) => identifier
    case ObjectValue(text) => text
    case NoneValue => "None"
  }

  /** `GetId` as a hook: it never falls back. */
  function GetIdHook(): (hook: Hook)
    ensures forall v :: hook(v) == Returned(ObjectValue(GetId(v)))
  {
    (v: PyValue) => Returned(ObjectValue(GetId(v)))
  }

  /** `GetReferencePath` as a hook: the identifier typed into its dialog,
      which the model takes as `entered`. */
  function GetReferencePathHook(entered: string): (hook: Hook)
    ensures forall v :: hook(v) == Returned(ObjectValue(entered))
  {
    (v: PyValue) => Returned(ObjectValue(entered))
  }

  const GetIdName: string := "GetId"
  const GetReferencePathName: string := "GetReferencePath"

  /** The registry as the module leaves it once imported. */
  function Defaults(entered: string): (r: map<string, seq<Hook>>)
  {
    Registered(Registered(map[], GetReferencePathName, GetReferencePathHook(entered)), GetIdName, GetIdHook())
  }

  /** With only the defaults registered, `GetId` and `GetReferencePath` call
      the default hooks, and every other name is a `KeyError`. */
  lemma DefaultsCall(entered: string, name: string, arg: PyValue)
    ensures Dispatch(Defaults(entered), GetIdName, arg) == Success(Some(ObjectValue(GetId(arg))))
    ensures Dispatch(Defaults(entered), GetReferencePathName, arg) == Success(Some(ObjectValue(entered)))
    ensures name != GetIdName && name != GetReferencePathName ==> Dispatch(Defaults(entered), name, arg) == Failure(KeyError(name))
  {
    assert GetIdName != GetReferencePathName by {
      assert GetIdName[3] != GetReferencePathName[3];
    }
    RegisterThenCall(map[], GetReferencePathName, GetReferencePathHook(entered), GetIdName, arg);
    RegisterThenCall(Registered(map[], GetReferencePathName, GetReferencePathHook(entered)), GetIdName, GetIdHook(), GetReferencePathName, arg);
  }

  /** `UsdQtHooks`: the class-level registry. */
  class UsdQtHooks {
    var registered: map<string, seq<Hook>>

    /** The registry once the module is imported: the two defaults. */
    constructor Loaded(entered: string)
      ensures registered == Defaults(entered)
    {
      registered := map[];
      new;
      Register(GetReferencePathName, GetReferencePathHook(entered));
      Register(GetIdName, GetIdHook());
    }

    /** `Register`: `hook` is tried before everything already registered
        under `name`. */
    method Register(name: string, hook: Hook)
      modifies this
      ensures registered == Registered(old(registered), name, hook)
    {
      var hooks := if name in registered then registered[name] else [];
      registered := registered[name := [hook] + hooks];
    }

    /** `Call`: each hook registered under `name` is tried in turn until one
        does not fall back; an exception other than `FallbackException`
        ends the call. */
    method Call(name: string, arg: PyValue) returns (r: Result<Option<PyValue>, CallError>)
      ensures r == Dispatch(registered, name, arg)
    {
      if name !in registered {
        return Failure(KeyError(name));
      }
      var hooks := registered[name];
      for i := 0 to |hooks|
        invariant FirstResult(hooks, arg) == FirstResult(hooks[i..], arg)
      {
        var outcome := hooks[i](arg);
        if outcome.Returned? {
          return Success(Some(outcome.value));
        } else if outcome.Raised? {
          return Failure(Propagated(outcome.exception));
        }
        assert hooks[i..][1..] == hooks[i + 1..];
      }
      return Success(None);
    }
  }
}
