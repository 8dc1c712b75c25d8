/**
 * The feature registry (`src/features/features.api.js`): a map from feature
 * name to its constructor, and the legacy list of single-letter `dom` codes.
 */
module FeatureRegistry {
  import opened JsValue

  /** An entry of the legacy list: `{cFeature, fnInit}`. */
  datatype LegacyFeature = LegacyFeature(cFeature: Value, fnInit: Value)

  datatype Features = Features(byName: map<string, Value>, legacy: seq<LegacyFeature>)

  /** The registry after `register(name, cb, legacy)`. */
  function Registered(f: Features, name: string, cb: Value, legacy: Value): (r: Features)
    ensures r.byName == f.byName[name := cb]
    ensures name in r.byName && r.byName[name] == cb
    ensures Truthy(legacy) ==> r.legacy == f.legacy + [LegacyFeature(legacy, cb)]
    ensures !Truthy(legacy) ==> r.legacy == f.legacy
  {
    Features(f.byName[name := cb],
             if Truthy(legacy) then f.legacy + [LegacyFeature(legacy, cb)] else f.legacy)
  }

  /** Registering one name leaves every other name's constructor as it was. */
  lemma RegisteredKeepsOthers(f: Features, name: string, cb: Value, legacy: Value, n: string)
    requires n != name && n in f.byName
    ensures var r := Registered(f, name, cb, legacy); n in r.byName && r.byName[n] == f.byName[n]
  {
  }

  /** Registering a name twice keeps the later constructor but both legacy entries. */
  lemma ReRegisterKeepsBothLegacy(f: Features, name: string, cb1: Value, cb2: Value, letter: Value)
    requires Truthy(letter)
    ensures var r := Registered(Registered(f, name, cb1, letter), name, cb2, letter);
            r.byName[name] == cb2 &&
            r.legacy == f.legacy + [LegacyFeature(letter, cb1), LegacyFeature(letter, cb2)]
  {
  }

  /** Handles standing for the five built-in feature constructors. */
  const DivCtor := Fn(1)
  const InfoCtor := Fn(2)
  const SearchCtor := Fn(3)
  const PagingCtor := Fn(4)
  const PageLengthCtor := Fn(5)

  class Registry {
    /** `_dt_ext_features` */
    var features: map<string, Value>
    /** `_dt_ext_feature` */
    var legacy: seq<LegacyFeature>

    function Contents(): Features
      reads this
    {
      Features(features, legacy)
    }

    constructor ()
      ensures features == map[] && legacy == []
    {
      features, legacy := map[], [];
    }

    /** `_dt_feature.register(name, cb, legacy)`. */
    method Register(name: string, cb: Value, letter: Value)
      modifies this
      ensures Contents() == Registered(old(Contents()), name, cb, letter)
    {
      features := features[name := cb];
      if Truthy(letter) {
        legacy := legacy + [LegacyFeature(letter, cb)];
      }
    }

    /** `_registerBuiltInFeatures`: div without a letter, then i, f, p, l. */
    method RegisterBuiltIns()
      modifies this
      ensures features == old(features)["div" := DivCtor]["info" := InfoCtor]["search" := SearchCtor]
                            ["paging" := PagingCtor]["pageLength" := PageLengthCtor]
      ensures legacy == old(legacy) + [LegacyFeature(Str("i"), InfoCtor), LegacyFeature(Str("f"), SearchCtor),
                                       LegacyFeature(Str("p"), PagingCtor), LegacyFeature(Str("l"), PageLengthCtor)]
    {
      ghost var l0 := legacy;
      Register("div", DivCtor, Undefined);
      Register("info", InfoCtor, Str("i"));
      Register("search", SearchCtor, Str("f"));
      assert legacy == l0 + [LegacyFeature(Str("i"), InfoCtor), LegacyFeature(Str("f"), SearchCtor)];
      Register("paging", PagingCtor, Str("p"));
      Register("pageLength", PageLengthCtor, Str("l"));
    }
  }
}
