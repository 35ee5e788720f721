/** The whole path of a message: catalog, generated table, C lookup and C rendering, against the Python object. */
module EndToEnd {
  import opened Bytes
  import opened Utf8
  import opened Locale
  import opened Catalogs
  import opened Fallback
  import opened Rendering
  import opened RenderAgreement
  import opened TableAgreement
  import CLiteral
  import Plural
  import Table
  import Template
  import Translation

  /** The text that C shows for a row: what is appended, when the template is accepted. */
  function ShownByC(row: Option<Table.Row>, params: seq<Binding>): Option<Bytes> {
    if row.Some? && RenderBytes(row.value.value, ParamTable(params)).valid
      then Some(RenderBytes(row.value.value, ParamTable(params)).text)
    else None
  }

  lemma FoundShown(catalog: Catalog, found: Found, params: seq<Binding>)
    requires Valid(catalog) && Get(catalog, found.locale, found.key) == Some(found.text)
    requires Dict(params) && NulFreeParams(params)
    ensures ToRow(Some(found)).Some? && CString(ToRow(Some(found)).value.value)
    ensures ShownByC(ToRow(Some(found)), params) == Some(RenderedBytes(found.text, params))
  {
    GetValid(catalog, found.locale, found.key);
    hide Valid, Get, Dict, NulFreeParams, RenderBytes, RenderedBytes, ParamTable, Template.Scan;
    assert NulFree(found.text);
    RenderersAgree(found.text, params);
  }

  /**
   For a message that Python finds and that holds no trigraph, msys_i18n_lookup and
   msys_i18n_render over the compiled table give the UTF-8 form of the text that
   Translator.text returns.
   */
  lemma SameText(catalog: Catalog, table: Table.CCatalog, value: Bytes, key: Str, params: seq<Binding>)
    requires Valid(catalog) && Table.Compile(catalog) == Some(table) && Comparable(value) &&
      !Unstartable(catalog, value)
    requires Dict(params) && NulFreeParams(params) && Chosen(catalog, value, key).Some?
    requires !CLiteral.HasTrigraph(Chosen(catalog, value, key).value.text)
    ensures ShownByC(RowFor(table, value, key), params) ==
            Some(RenderedBytes(Chosen(catalog, value, key).value.text, params))
  {
    ChosenTextOrigin(catalog, value, key);
    hide *;
    LookupAgrees(catalog, table, value, key);
    FoundShown(catalog, Chosen(catalog, value, key).value, params);
  }

  lemma ChosenTextOrigin(catalog: Catalog, value: Bytes, key: Str)
    ensures var found := Chosen(catalog, value, key);
      found.Some? ==> Get(catalog, found.value.locale, found.value.key) == Some(found.value.text)
  {
    hide Get, Resolve, ChainFor, Requested;
    ResolveOrigin(catalog, ChainFor(catalog, Requested(catalog, Some(value))), key);
  }

  lemma {:induction false} SetBindingDict(params: seq<Binding>, name: Str, value: Argument)
    requires Dict(params)
    ensures Dict(Translation.SetBinding(params, name, value))
    ensures forall b :: b in Translation.SetBinding(params, name, value) ==> b == Binding(name, value) || b in params
    ensures forall b :: b in Translation.SetBinding(params, name, value) && b in params && b.name == name ==>
      b.value == value
    decreases params
  {
    if params != [] {
      var rest := params[1..];
      assert params == [params[0]] + rest;
      if params[0].name != name {
        SetBindingDict(rest, name, value);
        var more := Translation.SetBinding(rest, name, value);
        assert forall k :: 0 <= k < |more| ==> more[k].name != params[0].name by {
          forall k | 0 <= k < |more|
            ensures more[k].name != params[0].name
          {
            assert more[k] in more;
          }
        }
      }
    }
  }

  lemma CountNulFree(params: seq<Binding>, count: int)
    requires Dict(params) && NulFreeParams(params)
    ensures NulFreeParams(Translation.SetBinding(params, Translation.COUNT, Integer(count)))
  {
    SetBindingDict(params, Translation.COUNT, Integer(count));
    hide Dict;
    var after := Translation.SetBinding(params, Translation.COUNT, Integer(count));
    forall k | 0 <= k < |after|
      ensures NulFree(after[k].name) && (after[k].value.Plain? ==> NulFree(after[k].value.text))
    {
      assert after[k] in after;
    }
  }

  /** The same for a count, with the count among the parameters, where the chain does not diverge. */
  lemma SamePlural(catalog: Catalog, table: Table.CCatalog, value: Bytes, key: Str, count: Plural.Count,
      params: seq<Binding>)
    requires Valid(catalog) && Table.Compile(catalog) == Some(table) && Comparable(value) &&
      !Unstartable(catalog, value)
    requires !Diverges(catalog, ChainFor(catalog, Requested(catalog, Some(value))), key, count)
    requires Dict(params) && NulFreeParams(params) && ChosenPlural(catalog, value, key, count).Some?
    requires !CLiteral.HasTrigraph(ChosenPlural(catalog, value, key, count).value.text)
    ensures var withCount := Translation.SetBinding(params, Translation.COUNT, Integer(count));
      ShownByC(PluralRowFor(table, value, key, count), withCount) ==
      Some(RenderedBytes(ChosenPlural(catalog, value, key, count).value.text, withCount))
  {
    var withCount := Translation.SetBinding(params, Translation.COUNT, Integer(count));
    CountedParams(params, count);
    ChosenOrigin(catalog, value, key, count);
    hide *;
    PluralLookupAgrees(catalog, table, value, key, count);
    FoundShown(catalog, ChosenPlural(catalog, value, key, count).value, withCount);
  }

  lemma CountedParams(params: seq<Binding>, count: int)
    requires Dict(params) && NulFreeParams(params)
    ensures var withCount := Translation.SetBinding(params, Translation.COUNT, Integer(count));
      Dict(withCount) && NulFreeParams(withCount)
  {
    hide Dict, NulFreeParams, Translation.SetBinding;
    CountNulFree(params, count);
    SetBindingDict(params, Translation.COUNT, Integer(count));
  }

  lemma ChosenOrigin(catalog: Catalog, value: Bytes, key: Str, count: Plural.Count)
    ensures var found := ChosenPlural(catalog, value, key, count);
      found.Some? ==> Get(catalog, found.value.locale, found.value.key) == Some(found.value.text)
  {
    var chain := ChainFor(catalog, Requested(catalog, Some(value)));
    hide Get, ResolvePlural, Resolve, ChainFor, Requested;
    PluralOrigin(catalog, chain, key, count);
    ResolveOrigin(catalog, chain, key);
  }
}
