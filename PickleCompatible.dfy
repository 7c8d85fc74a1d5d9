/**
 * `src/util/pickle_compatible.py`: `PickleCompatible.__setstate__` restores
 * an unpickled object's attributes and then gives every `__init__` parameter
 * the object lacks its default value, so objects pickled by an older version
 * of a class load into a newer one.
 */
module PickleCompatible {
  import opened Wrappers

  /** A parameter of `__init__`: its name and its default, `None` standing for `inspect.Parameter.empty`. */
  datatype Param<V> = Param(name: string, default: Option<V>)

  /** `hasattr(self, name)`: an instance attribute, or one found on the class. */
  predicate HasAttr<V>(attrs: map<string, V>, classAttrs: set<string>, name: string) {
    name in attrs || name in classAttrs
  }

  /** The loop over the signature: each parameter, in order, that is not `self`, has a default and is missing gets its default. */
  function FillDefaults<V>(attrs: map<string, V>, params: seq<Param<V>>, classAttrs: set<string>): map<string, V> {
    if params == [] then attrs
    else
      var n := |params| - 1;
      var before := FillDefaults(attrs, params[..n], classAttrs);
      var p := params[n];
      if p.name == "self" then before
      else if !HasAttr(before, classAttrs, p.name) && p.default.Some? then before[p.name := p.default.value]
      else before
  }

  /** A parameter the loop gives a value to. */
  predicate Filled<V>(p: Param<V>, attrs: map<string, V>, classAttrs: set<string>) {
    p.name != "self" && p.default.Some? && !HasAttr(attrs, classAttrs, p.name)
  }

  /** The instance attributes after `__setstate__(state)`. */
  function Restored<V>(attrs: map<string, V>, state: map<string, V>, params: seq<Param<V>>, classAttrs: set<string>): map<string, V> {
    FillDefaults(attrs + state, params, classAttrs)
  }

  /**
   * Defaults are added only for missing parameters that have one, each
   * value is the default of a parameter of that name, and no attribute
   * already present changes.
   */
  lemma {:induction false} FillDefaultsSpec<V>(attrs: map<string, V>, params: seq<Param<V>>, classAttrs: set<string>)
    ensures FillDefaults(attrs, params, classAttrs).Keys
         == attrs.Keys + set p | p in params && Filled(p, attrs, classAttrs) :: p.name
    ensures forall k :: k in attrs ==> FillDefaults(attrs, params, classAttrs)[k] == attrs[k]
    ensures forall k :: k in FillDefaults(attrs, params, classAttrs) && k !in attrs ==>
      exists p :: p in params && p.name == k && p.default == Some(FillDefaults(attrs, params, classAttrs)[k])
  {
    if params != [] {
      var n := |params| - 1;
      var init := params[..n];
      FillDefaultsSpec(attrs, init, classAttrs);
      assert params == init + [params[n]];
      var before := FillDefaults(attrs, init, classAttrs);
      var p := params[n];
      if Filled(p, before, classAttrs) {
        assert Filled(p, attrs, classAttrs);
      }
    }
  }

  /** With distinct parameter names, every missing parameter that has a default holds exactly that default. */
  lemma FillDefaultsValue<V>(attrs: map<string, V>, params: seq<Param<V>>, classAttrs: set<string>, i: nat)
    requires i < |params| && Filled(params[i], attrs, classAttrs)
    requires forall j :: 0 <= j < |params| && j != i ==> params[j].name != params[i].name
    ensures params[i].name in FillDefaults(attrs, params, classAttrs)
    ensures FillDefaults(attrs, params, classAttrs)[params[i].name] == params[i].default.value
  {
    var r := FillDefaults(attrs, params, classAttrs);
    FillDefaultsSpec(attrs, params, classAttrs);
    assert params[i] in params;
    var k := params[i].name;
    assert k in r;
    var p :| p in params && p.name == k && p.default == Some(r[k]);
    var j :| 0 <= j < |params| && params[j] == p;
  }

  /**
   * After restore every key of `state` holds its state value, attributes
   * that are neither in `state` nor defaulted keep theirs, and the only
   * new keys are missing parameters with defaults; `self` is never one.
   */
  lemma RestoredSpec<V>(attrs: map<string, V>, state: map<string, V>, params: seq<Param<V>>, classAttrs: set<string>)
    ensures forall k :: k in state ==>
      k in Restored(attrs, state, params, classAttrs) && Restored(attrs, state, params, classAttrs)[k] == state[k]
    ensures forall k :: k in attrs && k !in state ==>
      k in Restored(attrs, state, params, classAttrs) && Restored(attrs, state, params, classAttrs)[k] == attrs[k]
    ensures Restored(attrs, state, params, classAttrs).Keys
         == attrs.Keys + state.Keys + set p | p in params && Filled(p, attrs + state, classAttrs) :: p.name
    ensures "self" in Restored(attrs, state, params, classAttrs) ==> "self" in attrs || "self" in state
  {
    FillDefaultsSpec(attrs + state, params, classAttrs);
  }

  /** An object whose class mixes in `PickleCompatible`: its instance `__dict__`. */
  class Restorable<V> {
    var attrs: map<string, V>

    constructor(attrs: map<string, V>)
      ensures this.attrs == attrs
    {
      this.attrs := attrs;
    }

    /**
     * `__setstate__(state)`, given the parameters of `inspect.signature(self.__init__)`
     * and the names `hasattr` finds on the class.
     */
    method SetState(state: map<string, V>, params: seq<Param<V>>, classAttrs: set<string>)
      modifies this
      ensures attrs == Restored(old(attrs), state, params, classAttrs)
    {
      attrs := attrs + state;
      ghost var start := attrs;
      for i := 0 to |params|
        invariant attrs == FillDefaults(start, params[..i], classAttrs)
      {
        assert params[..i + 1][..i] == params[..i];
        var param := params[i];
        if param.name == "self" {
          continue;
        }
        if !HasAttr(attrs, classAttrs, param.name) && param.default.Some? {
          attrs := attrs[param.name := param.default.value];
        }
      }
      assert params[..|params|] == params;
    }
  }
}
