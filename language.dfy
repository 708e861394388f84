/** Choosing the translation table (script.js, getLang and t). The tables'
    strings are static data and are not modelled; a table is named by its
    language. */
module Language {
  import opened Storage

  datatype Lang = Ru | En | Es | De | Fr

  /** The keys of `translations`, in the order the source lists them. */
  const Supported: seq<string> := ["ru", "en", "es", "de", "fr"]

  function Code(l: Lang): string {
    match l
    case Ru => "ru"
    case En => "en"
    case Es => "es"
    case De => "de"
    case Fr => "fr"
  }

  /** `getLang()`: the stored language when there is a non-empty one, else
      the first two characters of the browser's locale when not empty,
      else "en"; a store that cannot be read gives "en". */
  function GetLang(stored: Read, locale: string): (code: string)
    ensures code != []
    ensures stored == Unreadable ==> code == "en"
    ensures stored.Found? && stored.value != [] ==> code == stored.value
    ensures !(stored.Found? && stored.value != []) && stored != Unreadable ==>
              code == if locale == [] then "en" else locale[..if |locale| < 2 then |locale| else 2]
  {
    if stored == Unreadable then "en"
    else
      var prefix := locale[..if |locale| < 2 then |locale| else 2];
      StoredOr(stored, StoredOr(Found(prefix), "en"))
  }

  /** The table `t()` picks once the lookup is made total: the language
      named by the code, and English for a code without a table. */
  function Table(code: string): (l: Lang)
    ensures code in Supported ==> Code(l) == code
    ensures code !in Supported ==> l == En
  {
    if code == "ru" then Ru
    else if code == "es" then Es
    else if code == "de" then De
    else if code == "fr" then Fr
    else En
  }

  /** A saved language is restored as it was. */
  lemma {:induction false} CodeRoundTrip(l: Lang, locale: string)
    ensures Code(l) in Supported
    ensures Table(GetLang(Found(Code(l)), locale)) == l
  {
    match l
    case Ru =>
    case En =>
    case Es =>
    case De =>
    case Fr =>
  }

  /** With nothing stored the browser locale decides: "es-ES" selects the
      Spanish table and "pt-BR", which has none, the English one. */
  lemma LocaleExamples()
    ensures Table(GetLang(Missing, "es-ES")) == Es
    ensures Table(GetLang(Missing, "pt-BR")) == En
    ensures Table(GetLang(Unreadable, "de-DE")) == En
  {
    assert "es-ES"[..2] == "es";
    assert "pt-BR"[..2] == "pt";
  }

  // -----------------------------------------------------------------------
  // The lookup as written: the code is used when the `in` operator finds
  // it in `translations`, and "en" is used otherwise.
  // The `in` operator also finds the properties `translations` inherits
  // from Object.prototype, so such a code is accepted and
  // `translations[code]` is then not a table at all.

  /** The names every plain object inherits from Object.prototype. */
  const Inherited: seq<string> := [
    "constructor", "hasOwnProperty", "isPrototypeOf", "propertyIsEnumerable",
    "toLocaleString", "toString", "valueOf", "__proto__",
    "__defineGetter__", "__defineSetter__", "__lookupGetter__", "__lookupSetter__"]

  /** What `translations[code]` yields after the `in` test as written. */
  datatype Dict = Translations(lang: Lang) | NotATable(property: string)

  /** `t()` as written: an own key gives its table, an inherited property
      name gets through the `in` check and gives that property, and any
      other code gives the English table. It fails to give a table exactly
      for the inherited names, and agrees with `Table` everywhere else. */
  function LookupAsWritten(code: string): (d: Dict)
    ensures d.NotATable? <==> code in Inherited
    ensures d.Translations? ==> d.lang == Table(code)
  {
    assert forall i :: 0 <= i < |Inherited| ==> Inherited[i] !in Supported;
    if code in Supported then Translations(Table(code))
    else if code in Inherited then NotATable(code)
    else Translations(En)
  }

  /** A stored language of "constructor" passes the `in` test as written and
      yields no table, where the fallback to English was meant. */
  lemma InheritedNameIsNotATable()
    ensures LookupAsWritten(GetLang(Found("constructor"), "en-US")) == NotATable("constructor")
    ensures Table(GetLang(Found("constructor"), "en-US")) == En
  {
    assert "constructor" in Inherited;
  }
}
