/**
 * The bilingual field resolver `l` of src/composables/useLocalized.js.
 *
 * Content fields are either plain values or objects `{ es: ..., en: ... }`;
 * `l(value)` picks the entry for the current locale, falling back to Spanish,
 * then English, then the empty string, and leaves every other value alone.
 */
module Localized {

  /** A JavaScript value as it can appear in the site's JSON data. */
  datatype JsValue =
    | Undefined
    | Null
    | Bool(b: bool)
    | Num(n: real)
    | Str(s: string)
    | Arr(items: seq<JsValue>)
    | Obj(props: map<string, JsValue>)

  /** The values `??` skips. */
  predicate Nullish(v: JsValue) {
    v.Undefined? || v.Null?
  }

  /** `value[key]` on an object: `undefined` for a missing key, so a present result means a present key. */
  function Get(props: map<string, JsValue>, key: string): (r: JsValue)
    ensures key in props ==> r == props[key]
    ensures !Nullish(r) ==> key in props && r in props.Values
  {
    if key in props then props[key] else Undefined
  }

  /** `a ?? b`: one of its operands, nullish only when both are. */
  function Coalesce(a: JsValue, b: JsValue): (r: JsValue)
    ensures !Nullish(a) ==> r == a
    ensures r == a || r == b
    ensures !Nullish(r) <==> !Nullish(a) || !Nullish(b)
  {
    if Nullish(a) then b else a
  }

  /**
   * A non-array object with an `es` or an `en` key (`'es' in value || 'en' in
   * value`): never null, undefined, a primitive or an array.
   */
  predicate IsBilingual(v: JsValue): (r: bool)
    ensures r ==> !Nullish(v) && !v.Arr? && !v.Str? && !v.Num? && !v.Bool?
    ensures v.Obj? && ("es" in v.props || "en" in v.props) ==> r
  {
    v.Obj? && ("es" in v.props || "en" in v.props)
  }

  /** `l(value)` with the current locale `locale`. */
  function Resolve(value: JsValue, locale: string): (r: JsValue)
    ensures !IsBilingual(value) ==> r == value
    ensures IsBilingual(value) ==> !Nullish(r)
  {
    if value.Null? || value.Undefined? then value
    else if value.Obj? && ("es" in value.props || "en" in value.props) then
      Coalesce(Coalesce(Coalesce(Get(value.props, locale), Get(value.props, "es")), Get(value.props, "en")), Str(""))
    else value
  }

  /** The first non-nullish candidate, or `''` when every one is nullish. */
  function FirstPresent(candidates: seq<JsValue>): (r: JsValue)
    ensures !Nullish(r)
    ensures r == Str("") || r in candidates
  {
    if candidates == [] then Str("")
    else if !Nullish(candidates[0]) then candidates[0]
    else FirstPresent(candidates[1..])
  }

  /** A bilingual object resolves to the first present entry among locale, `es`, `en`. */
  lemma ResolveIsFirstPresent(props: map<string, JsValue>, locale: string)
    requires "es" in props || "en" in props
    ensures Resolve(Obj(props), locale) == FirstPresent([Get(props, locale), Get(props, "es"), Get(props, "en")])
  {
    var c := [Get(props, locale), Get(props, "es"), Get(props, "en")];
    assert c[1..] == [Get(props, "es"), Get(props, "en")];
    assert c[1..][1..] == [Get(props, "en")];
    if Nullish(c[0]) {
      assert FirstPresent(c) == FirstPresent(c[1..]);
      if Nullish(c[1]) {
        assert FirstPresent(c[1..]) == FirstPresent(c[1..][1..]);
        if Nullish(c[2]) {
          assert c[1..][1..][1..] == [];
        }
      }
    }
  }

  /** `null` and `undefined` come back unchanged. */
  lemma NullishUnchanged(value: JsValue, locale: string)
    requires Nullish(value)
    ensures Resolve(value, locale) == value
  {
  }

  /** Strings, numbers, booleans and arrays come back unchanged. */
  lemma NonObjectsUnchanged(value: JsValue, locale: string)
    requires !value.Obj?
    ensures Resolve(value, locale) == value
  {
  }

  /** An object with neither an `es` nor an `en` key comes back unchanged. */
  lemma PlainObjectUnchanged(props: map<string, JsValue>, locale: string)
    requires "es" !in props && "en" !in props
    ensures Resolve(Obj(props), locale) == Obj(props)
  {
  }

  /** A present, non-nullish entry for the current locale wins. */
  lemma LocaleEntryWins(props: map<string, JsValue>, locale: string)
    requires "es" in props || "en" in props
    requires locale in props && !Nullish(props[locale])
    ensures Resolve(Obj(props), locale) == props[locale]
  {
  }

  /** Without a usable locale entry: `es` if present, else `en` if present, else `''`. */
  lemma FallbackOrder(props: map<string, JsValue>, locale: string)
    requires "es" in props || "en" in props
    requires Nullish(Get(props, locale))
    ensures !Nullish(Get(props, "es")) ==> Resolve(Obj(props), locale) == props["es"]
    ensures Nullish(Get(props, "es")) && !Nullish(Get(props, "en")) ==> Resolve(Obj(props), locale) == props["en"]
    ensures Nullish(Get(props, "es")) && Nullish(Get(props, "en")) ==> Resolve(Obj(props), locale) == Str("")
  {
  }

  /**
   * For bilingual objects only the locale, `es` and `en` entries matter: two
   * objects that agree on them resolve alike whatever their other keys hold.
   */
  lemma OnlyThreeEntriesMatter(p: map<string, JsValue>, q: map<string, JsValue>, locale: string)
    requires "es" in p || "en" in p
    requires "es" in q || "en" in q
    requires Get(p, locale) == Get(q, locale) && Get(p, "es") == Get(q, "es") && Get(p, "en") == Get(q, "en")
    ensures Resolve(Obj(p), locale) == Resolve(Obj(q), locale)
  {
  }

  /**
   * When every entry of a bilingual object is a string or nullish, it resolves to
   * a string: one of its entries, or `''`.
   */
  lemma StringEntriesResolveToString(props: map<string, JsValue>, locale: string)
    requires "es" in props || "en" in props
    requires forall k :: k in props ==> Nullish(props[k]) || props[k].Str?
    ensures Resolve(Obj(props), locale).Str?
    ensures Resolve(Obj(props), locale) == Str("") || Resolve(Obj(props), locale) in props.Values
  {
  }
}
