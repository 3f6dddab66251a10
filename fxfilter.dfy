/**
 * The state kept by the `FxFilter` class: the registry of custom filters,
 * the per-element records of the scan, and the children appended to each
 * element. Elements are abstract ids, each element's children a list in
 * document order, and the random part of a filter id a serial number drawn
 * from a counter.
 */
module FxFilterEngine {
  import opened Wrappers
  import opened JsText
  import opened FilterParser

  type ElementId = nat

  /**
   * A registered callback: a handle naming the JavaScript function, or a
   * falsy value (`add(name, null)`), which `has` still reports but
   * `addFxContainer` skips.
   */
  datatype Callback = Falsy | Handle(id: nat)

  type Registry = map<string, Callback>

  /** What the callback with a handle returns for an element and the parsed parameters. */
  type Renderer = (nat, ElementId, seq<Param>) -> string

  /** A filter id `fx-<name>-<suffix>`; the suffix is drawn from a supply of fresh values. */
  datatype FilterId = FilterId(name: string, serial: nat)

  function IdText(id: FilterId): string {
    "fx-" + id.name + "-" + NatToString(id.serial)
  }

  /** One `<filter id=...>` definition inside the appended svg block. */
  datatype FilterDef = FilterDef(id: FilterId, content: string)

  /** One entry of `filterParts`: a native filter's text, or `url(#id)`. */
  datatype Token = CssToken(text: string) | UrlToken(id: FilterId)

  function TokenText(t: Token): string {
    match t
    case CssToken(text) => text
    case UrlToken(id) => "url(#" + IdText(id) + ")"
  }

  /** The text of each part, in order. */
  function TokenTexts(ts: seq<Token>): seq<string> {
    seq(|ts|, k requires 0 <= k < |ts| => TokenText(ts[k]))
  }

  /** `filterParts.join(' ')`: the backdrop-filter value. */
  function Backdrop(ts: seq<Token>): string {
    Join(TokenTexts(ts), " ")
  }

  /**
   * A child of an element: an `<svg>` element (a page's own `<svg>` child is
   * modelled as `Svg([])`), a `.fx-container` div, or anything else.
   */
  datatype Child = Svg(defs: seq<FilterDef>) | Container(backdrop: string) | Content(markup: string)

  /** The element's record in `FxFilter.elements`. */
  datatype ElementState = ElementState(filter: string, hasContainer: bool)

  /** The children of every element, the records, and the state of the id supply. */
  datatype World = World(children: map<ElementId, seq<Child>>, elements: map<ElementId, ElementState>, serial: nat)

  function Kids(children: map<ElementId, seq<Child>>, e: ElementId): seq<Child> {
    if e in children then children[e] else []
  }

  function CountContainers(kids: seq<Child>): nat {
    if kids == [] then 0
    else CountContainers(kids[..|kids| - 1]) + (if kids[|kids| - 1].Container? then 1 else 0)
  }

  // ---------------------------------------------------------------------
  // addFxContainer: the fold over orderedFilters

  /** What `addFxContainer` has built so far: the parts, the definitions and the next fresh id. */
  datatype Synthesis = Synthesis(tokens: seq<Token>, defs: seq<FilterDef>, serial: nat)

  /** One step of the `forEach`: a native entry adds its text; a custom one with a callback adds a definition and its `url`. */
  function Step(reg: Registry, render: Renderer, e: ElementId, acc: Synthesis, item: OrderedFilter): Synthesis {
    match item
    case Css(text) => acc.(tokens := acc.tokens + [CssToken(text)])
    case Custom(f) =>
      if f.name in reg && reg[f.name].Handle? then
        var id := FilterId(f.name, acc.serial);
        Synthesis(acc.tokens + [UrlToken(id)], acc.defs + [FilterDef(id, Rendered(reg, render, e, f))], acc.serial + 1)
      else acc
  }

  /** `callback(element, ...filter.params)` for the callback registered under the filter's name. */
  function Rendered(reg: Registry, render: Renderer, e: ElementId, f: CustomFilter): string {
    if f.name in reg && reg[f.name].Handle? then render(reg[f.name].id, e, f.params) else ""
  }

  function Synthesize(reg: Registry, render: Renderer, e: ElementId, items: seq<OrderedFilter>, serial: nat): Synthesis {
    if items == [] then Synthesis([], [], serial)
    else Step(reg, render, e, Synthesize(reg, render, e, items[..|items| - 1], serial), items[|items| - 1])
  }

  /** The fold over one more entry of a sequence is one more step. */
  lemma SynthesizePrefix(reg: Registry, render: Renderer, e: ElementId, items: seq<OrderedFilter>, k: nat, serial: nat)
    requires k < |items|
    ensures Synthesize(reg, render, e, items[..k + 1], serial)
         == Step(reg, render, e, Synthesize(reg, render, e, items[..k], serial), items[k])
  {
    assert items[..k + 1][..k] == items[..k];
  }

  /** A custom entry whose callback is truthy. */
  predicate Renderable(reg: Registry, item: OrderedFilter) {
    item.Custom? && item.filter.name in reg && reg[item.filter.name].Handle?
  }

  /** The custom entries that produce a definition, in order. */
  function Renderables(reg: Registry, items: seq<OrderedFilter>): seq<CustomFilter> {
    if items == [] then []
    else
      var last := items[|items| - 1];
      Renderables(reg, items[..|items| - 1]) + (if Renderable(reg, last) then [last.filter] else [])
  }

  /**
   * What each entry contributes to the parts, with the ids erased: its text
   * for a native entry, one `url` (shown as `None`) for a renderable custom
   * entry, nothing for a custom entry without a callback.
   */
  function Contributions(reg: Registry, items: seq<OrderedFilter>): seq<Option<string>> {
    if items == [] then []
    else
      var last := items[|items| - 1];
      Contributions(reg, items[..|items| - 1]) + Contribution(reg, last)
  }

  function Contribution(reg: Registry, item: OrderedFilter): seq<Option<string>> {
    if item.Css? then [Some(item.text)] else if Renderable(reg, item) then [None] else []
  }

  function Erase(ts: seq<Token>): seq<Option<string>> {
    if ts == [] then [] else Erase(ts[..|ts| - 1]) + [Erased(ts[|ts| - 1])]
  }

  function Erased(t: Token): Option<string> {
    if t.CssToken? then Some(t.text) else None
  }

  lemma EraseAppend(ts: seq<Token>, t: Token)
    ensures Erase(ts + [t]) == Erase(ts) + [Erased(t)]
  {
    assert (ts + [t])[..|ts|] == ts;
  }

  /** One step of the fold adds the entry's contribution to the erased parts. */
  lemma StepTokens(reg: Registry, render: Renderer, e: ElementId, acc: Synthesis, item: OrderedFilter)
    ensures Erase(Step(reg, render, e, acc, item).tokens) == Erase(acc.tokens) + Contribution(reg, item)
  {
    match item
    case Css(text) =>
      EraseAppend(acc.tokens, CssToken(text));
    case Custom(f) =>
      if Renderable(reg, item) {
        EraseAppend(acc.tokens, UrlToken(FilterId(f.name, acc.serial)));
      } else {
        assert Erase(acc.tokens) + [] == Erase(acc.tokens);
      }
  }

  /** One step of the fold adds a definition with the next id exactly for a renderable entry. */
  lemma StepDefs(reg: Registry, render: Renderer, e: ElementId, acc: Synthesis, item: OrderedFilter)
    ensures var next := Step(reg, render, e, acc, item);
            if Renderable(reg, item) then
              && next.defs == acc.defs + [FilterDef(FilterId(item.filter.name, acc.serial), Rendered(reg, render, e, item.filter))]
              && next.serial == acc.serial + 1
            else next.defs == acc.defs && next.serial == acc.serial
  {
  }

  lemma ExpectedDefsAppend(reg: Registry, render: Renderer, e: ElementId, rs: seq<CustomFilter>, r: CustomFilter, serial: nat)
    ensures ExpectedDefs(reg, render, e, rs + [r], serial)
         == ExpectedDefs(reg, render, e, rs, serial) + [FilterDef(FilterId(r.name, serial + |rs|), Rendered(reg, render, e, r))]
  {
    var a := ExpectedDefs(reg, render, e, rs + [r], serial);
    var b := ExpectedDefs(reg, render, e, rs, serial) + [FilterDef(FilterId(r.name, serial + |rs|), Rendered(reg, render, e, r))];
    assert |a| == |b|;
    forall k | 0 <= k < |a| ensures a[k] == b[k] {
      if k < |rs| {
        assert (rs + [r])[k] == rs[k];
      }
    }
  }

  /** The ids of the `url` parts, in order. */
  function UrlIds(ts: seq<Token>): seq<FilterId> {
    if ts == [] then [] else UrlIds(ts[..|ts| - 1]) + (if ts[|ts| - 1].UrlToken? then [ts[|ts| - 1].id] else [])
  }

  /** The definitions the renderable entries produce, the `k`-th with serial `serial + k`. */
  function ExpectedDefs(reg: Registry, render: Renderer, e: ElementId, rs: seq<CustomFilter>, serial: nat): seq<FilterDef> {
    seq(|rs|, k requires 0 <= k < |rs| => FilterDef(FilterId(rs[k].name, serial + k), Rendered(reg, render, e, rs[k])))
  }

  /**
   * The parts of `addFxContainer` follow `orderedFilters` in order: a native
   * entry's text verbatim, one `url` per custom entry with a callback, and
   * nothing for a custom entry without one.
   */
  lemma {:induction false} SynthesizeTokens(reg: Registry, render: Renderer, e: ElementId, items: seq<OrderedFilter>, serial: nat)
    ensures Erase(Synthesize(reg, render, e, items, serial).tokens) == Contributions(reg, items)
  {
    if items != [] {
      var init := items[..|items| - 1];
      SynthesizeTokens(reg, render, e, init, serial);
      StepTokens(reg, render, e, Synthesize(reg, render, e, init, serial), items[|items| - 1]);
    }
  }

  /**
   * One definition per custom entry with a callback, in order, each with a
   * fresh id and what the callback returned; the supply has advanced by
   * their number.
   */
  lemma {:induction false} SynthesizeDefs(reg: Registry, render: Renderer, e: ElementId, items: seq<OrderedFilter>, serial: nat)
    ensures var syn := Synthesize(reg, render, e, items, serial);
            && syn.defs == ExpectedDefs(reg, render, e, Renderables(reg, items), serial)
            && syn.serial == serial + |syn.defs|
  {
    if items != [] {
      var init := items[..|items| - 1];
      var last := items[|items| - 1];
      var acc := Synthesize(reg, render, e, init, serial);
      SynthesizeDefs(reg, render, e, init, serial);
      StepDefs(reg, render, e, acc, last);
      var rs := Renderables(reg, init);
      if Renderable(reg, last) {
        ExpectedDefsAppend(reg, render, e, rs, last.filter, serial);
      } else {
        assert rs + [] == rs;
      }
    }
  }

  /** The ids of the definitions, in order. */
  function DefIds(defs: seq<FilterDef>): (r: seq<FilterId>)
    ensures |r| == |defs| && forall k :: 0 <= k < |defs| ==> r[k] == defs[k].id
  {
    if defs == [] then [] else DefIds(defs[..|defs| - 1]) + [defs[|defs| - 1].id]
  }

  /** The `url` parts name the definitions' ids, in the same order. */
  lemma {:induction false} SynthesizeUrlIds(reg: Registry, render: Renderer, e: ElementId, items: seq<OrderedFilter>, serial: nat)
    ensures var syn := Synthesize(reg, render, e, items, serial);
            UrlIds(syn.tokens) == DefIds(syn.defs)
  {
    if items != [] {
      var init := items[..|items| - 1];
      SynthesizeUrlIds(reg, render, e, init, serial);
      StepUrlIds(reg, render, e, Synthesize(reg, render, e, init, serial), items[|items| - 1]);
    }
  }

  /** One step of the fold adds a `url` part exactly when it adds a definition, and with that definition's id. */
  lemma StepUrlIds(reg: Registry, render: Renderer, e: ElementId, acc: Synthesis, item: OrderedFilter)
    requires UrlIds(acc.tokens) == DefIds(acc.defs)
    ensures var next := Step(reg, render, e, acc, item);
            UrlIds(next.tokens) == DefIds(next.defs)
  {
    var next := Step(reg, render, e, acc, item);
    match item
    case Css(text) =>
      UrlIdsSnoc(acc.tokens, CssToken(text));
    case Custom(f) =>
      if Renderable(reg, item) {
        var id := FilterId(f.name, acc.serial);
        UrlIdsSnoc(acc.tokens, UrlToken(id));
        DefIdsSnoc(acc.defs, FilterDef(id, Rendered(reg, render, e, f)));
      }
  }

  lemma UrlIdsSnoc(ts: seq<Token>, t: Token)
    ensures UrlIds(ts + [t]) == UrlIds(ts) + (if t.UrlToken? then [t.id] else [])
  {
    assert (ts + [t])[..|ts|] == ts;
  }

  lemma DefIdsSnoc(defs: seq<FilterDef>, d: FilterDef)
    ensures DefIds(defs + [d]) == DefIds(defs) + [d.id]
  {
    assert (defs + [d])[..|defs|] == defs;
  }

  /** Native entries that are not blank. */
  predicate CssNotBlank(items: seq<OrderedFilter>) {
    forall k :: 0 <= k < |items| ==> items[k].Css? ==> !AllSpace(items[k].text)
  }

  predicate TokensNotBlank(ts: seq<Token>) {
    forall k :: 0 <= k < |ts| ==> !AllSpace(TokenText(ts[k]))
  }

  /** No part of the fold is blank when no native entry is. */
  lemma {:induction false} SynthesizeTokensNotBlank(reg: Registry, render: Renderer, e: ElementId, items: seq<OrderedFilter>, serial: nat)
    requires CssNotBlank(items)
    ensures TokensNotBlank(Synthesize(reg, render, e, items, serial).tokens)
  {
    if items != [] {
      var init := items[..|items| - 1];
      assert CssNotBlank(init) by {
        forall k | 0 <= k < |init| ensures init[k].Css? ==> !AllSpace(init[k].text) {
          assert init[k] == items[k];
        }
      }
      SynthesizeTokensNotBlank(reg, render, e, init, serial);
      var last := items[|items| - 1];
      assert last.Css? ==> !AllSpace(last.text);
      var acc := Synthesize(reg, render, e, init, serial);
      assert TokensNotBlank(acc.tokens);
      var ts := Synthesize(reg, render, e, items, serial).tokens;
      forall k | 0 <= k < |ts| ensures !AllSpace(TokenText(ts[k])) {
        if k < |acc.tokens| {
          assert ts[k] == acc.tokens[k];
          assert !AllSpace(TokenText(acc.tokens[k]));
        } else if ts[k].UrlToken? {
          assert TokenText(ts[k])[0] == 'u';
          assert !AllSpace(TokenText(ts[k]));
        } else {
          assert last.Css? && ts[k] == CssToken(last.text);
          assert !AllSpace(TokenText(ts[k]));
        }
      }
    }
  }

  lemma {:induction false} AllSpaceAppend(a: string, b: string)
    ensures AllSpace(a + b) <==> AllSpace(a) && AllSpace(b)
  {
    if !AllSpace(a) {
      var k :| 0 <= k < |a| && !IsSpace(a[k]);
      assert (a + b)[k] == a[k];
    }
    if !AllSpace(b) {
      var k :| 0 <= k < |b| && !IsSpace(b[k]);
      assert (a + b)[|a| + k] == b[k];
    }
  }

  /** Joining with a blank separator is blank exactly when every part is. */
  lemma {:induction false} JoinAllSpace(parts: seq<string>, sep: string)
    requires AllSpace(sep)
    ensures AllSpace(Join(parts, sep)) <==> forall k :: 0 <= k < |parts| ==> AllSpace(parts[k])
  {
    if |parts| > 1 {
      JoinAllSpace(parts[1..], sep);
      AllSpaceAppend(parts[0] + sep, Join(parts[1..], sep));
      AllSpaceAppend(parts[0], sep);
      if forall k :: 1 <= k < |parts| ==> AllSpace(parts[k]) {
        assert forall k :: 0 <= k < |parts[1..]| ==> AllSpace(parts[1..][k]);
      } else {
        var k :| 1 <= k < |parts| && !AllSpace(parts[k]);
        assert parts[1..][k - 1] == parts[k];
      }
    }
  }

  /**
   * With no blank native entry the backdrop-filter value is blank exactly
   * when the fold produced no part, so the svg block and the container are
   * appended exactly when some part was produced.
   */
  lemma BackdropBlankIffNoTokens(reg: Registry, render: Renderer, e: ElementId, items: seq<OrderedFilter>, serial: nat)
    requires CssNotBlank(items)
    ensures var ts := Synthesize(reg, render, e, items, serial).tokens;
            Trim(Backdrop(ts)) == [] <==> ts == []
  {
    var ts := Synthesize(reg, render, e, items, serial).tokens;
    SynthesizeTokensNotBlank(reg, render, e, items, serial);
    JoinAllSpace(TokenTexts(ts), " ");
    if ts != [] {
      assert !AllSpace(TokenTexts(ts)[0]);
    }
  }

  /** A parsed filter value never has a blank native entry: each starts with its name. */
  lemma ParsedCssNotBlank(registered: set<string>, s: string)
    ensures CssNotBlank(Parse(registered, s))
  {
    var ms := Matches(s, 0);
    MatchesHaveShape(s, 0);
    var items := Parse(registered, s);
    forall k | 0 <= k < |items| ensures items[k].Css? ==> !AllSpace(items[k].text) {
      ClassifyAllAt(registered, s, ms, k);
      if items[k].Css? {
        assert items[k].text[0] == s[ms[k].start];
      }
    }
  }

  // ---------------------------------------------------------------------
  // addFxContainer, removeFxContainer and scanElements on the whole state

  /**
   * `addFxContainer(element, value)`: nothing when the element already has
   * a container; otherwise the value is parsed against the registry and
   * folded, and when the joined parts are not blank an svg block holding
   * the definitions and a container carrying the parts are appended and the
   * element is recorded.
   */
  function AddSpec(reg: Registry, render: Renderer, w: World, e: ElementId, value: string): World {
    if CountContainers(Kids(w.children, e)) > 0 then w
    else Attach(w, e, value, Synthesize(reg, render, e, Parse(reg.Keys, value), w.serial))
  }

  /** Without a container, `addFxContainer` attaches what the fold over the parsed entries built. */
  lemma AddSpecAttaches(reg: Registry, render: Renderer, w: World, e: ElementId, value: string,
                        ordered: seq<OrderedFilter>, syn: Synthesis)
    requires CountContainers(Kids(w.children, e)) == 0
    requires ordered == Parse(reg.Keys, value)
    requires syn == Synthesize(reg, render, e, ordered, w.serial)
    ensures AddSpec(reg, render, w, e, value) == Attach(w, e, value, syn)
  {
  }

  /** The end of `addFxContainer` once the parts and definitions are built. */
  function Attach(w: World, e: ElementId, value: string, syn: Synthesis): World {
    var backdrop := Backdrop(syn.tokens);
    if Trim(backdrop) == [] then w.(serial := syn.serial)
    else World(w.children[e := Kids(w.children, e) + [Svg(syn.defs), Container(backdrop)]],
               w.elements[e := ElementState(value, true)], syn.serial)
  }

  /** The children left once every `.fx-container` and every svg among them is removed. */
  function Strip(kids: seq<Child>): (r: seq<Child>)
    ensures forall c :: c in r <==> c in kids && c.Content?
  {
    if kids == [] then []
    else
      var last := kids[|kids| - 1];
      Strip(kids[..|kids| - 1]) + (if last.Content? then [last] else [])
  }

  /** `removeFxContainer(element)`. */
  function RemoveSpec(w: World, e: ElementId): World {
    if e in w.children then w.(children := w.children[e := Strip(w.children[e])]) else w
  }

  /** `getFxFilterValue`: the trimmed property value, or `null` when that is empty. */
  function GetFxFilterValue(raw: string): (r: Option<string>)
    ensures r.None? <==> AllSpace(raw)
    ensures r.Some? ==> r.value == Trim(raw)
    ensures r.Some? ==> r.value != [] && !IsSpace(r.value[0]) && !IsSpace(r.value[|r.value| - 1])
  {
    var t := Trim(raw);
    if t == [] then None else Some(t)
  }

  function Record(w: World, e: ElementId, f: string): World {
    w.(elements := w.elements[e := ElementState(f, true)])
  }

  /**
   * The body of the scan's `forEach` for one element, given the raw value
   * of its `--fx-filter` property.
   */
  function ScanOne(reg: Registry, render: Renderer, style: ElementId -> string, w: World, e: ElementId): World {
    match GetFxFilterValue(style(e))
    case Some(f) =>
      if e !in w.elements then Record(AddSpec(reg, render, w, e, f), e, f)
      else if w.elements[e].filter != f then Record(AddSpec(reg, render, RemoveSpec(w, e), e, f), e, f)
      else w
    case None =>
      if e in w.elements && w.elements[e].hasContainer then RemoveSpec(w, e).(elements := w.elements - {e})
      else w
  }

  /** `scanElements` over the elements the document query returned, in order. */
  function Scan(reg: Registry, render: Renderer, style: ElementId -> string, w: World, es: seq<ElementId>): World {
    if es == [] then w
    else ScanOne(reg, render, style, Scan(reg, render, style, w, es[..|es| - 1]), es[|es| - 1])
  }

  /** The record of `e` agrees with its property value: the scan has nothing to do for it. */
  predicate Settled(style: ElementId -> string, w: World, e: ElementId) {
    match GetFxFilterValue(style(e))
    case Some(f) => e in w.elements && w.elements[e].filter == f
    case None => !(e in w.elements && w.elements[e].hasContainer)
  }

  /** `e` has the same record, or the same absence of one, in both states. */
  predicate SameRecord(w: World, w': World, e: ElementId) {
    (e in w.elements <==> e in w'.elements) && (e in w.elements ==> w.elements[e] == w'.elements[e])
  }

  /** `addFxContainer` records the element it appended to, and changes no other record. */
  lemma AddSpecElements(reg: Registry, render: Renderer, w: World, e: ElementId, value: string)
    ensures var els := AddSpec(reg, render, w, e, value).elements;
            els == w.elements || els == w.elements[e := ElementState(value, true)]
  {
    if CountContainers(Kids(w.children, e)) == 0 {
      var syn := Synthesize(reg, render, e, Parse(reg.Keys, value), w.serial);
      assert AddSpec(reg, render, w, e, value) == Attach(w, e, value, syn);
    }
  }

  /**
   * After the scan visits `e`, its record agrees with its value (a non-empty
   * value is recorded even when nothing was appended) and every other
   * element keeps its record.
   */
  lemma ScanOneSettles(reg: Registry, render: Renderer, style: ElementId -> string, w: World, e: ElementId)
    ensures Settled(style, ScanOne(reg, render, style, w, e), e)
    ensures forall other :: other != e ==> SameRecord(w, ScanOne(reg, render, style, w, e), other)
  {
    var v := GetFxFilterValue(style(e));
    var r := ScanOne(reg, render, style, w, e);
    if v.Some? {
      var f := v.value;
      if e !in w.elements {
        AddRecordSettles(reg, render, w, e, f);
        assert r == Record(AddSpec(reg, render, w, e, f), e, f);
        UpdateKeepsOthers(w, r, e, ElementState(f, true));
      } else if w.elements[e].filter != f {
        var removed := RemoveSpec(w, e);
        assert removed.elements == w.elements;
        AddRecordSettles(reg, render, removed, e, f);
        assert r == Record(AddSpec(reg, render, removed, e, f), e, f);
        UpdateKeepsOthers(w, r, e, ElementState(f, true));
      } else {
        assert r == w;
      }
    } else if e in w.elements && w.elements[e].hasContainer {
      assert r.elements == w.elements - {e};
      RemovalKeepsOthers(w, r, e);
    } else {
      assert r == w;
    }
  }

  lemma UpdateKeepsOthers(w: World, w': World, e: ElementId, st: ElementState)
    requires w'.elements == w.elements[e := st]
    ensures forall other :: other != e ==> SameRecord(w, w', other)
  {
  }

  lemma RemovalKeepsOthers(w: World, w': World, e: ElementId)
    requires w'.elements == w.elements - {e}
    ensures forall other :: other != e ==> SameRecord(w, w', other)
  {
  }

  /** Adding and then recording `e` with `f` records exactly that for `e`, and leaves the other records. */
  lemma AddRecordSettles(reg: Registry, render: Renderer, w: World, e: ElementId, f: string)
    ensures Record(AddSpec(reg, render, w, e, f), e, f).elements == w.elements[e := ElementState(f, true)]
  {
    AddSpecElements(reg, render, w, e, f);
  }

  /** A settled element is left alone: the same value changes nothing. */
  lemma SettledUnchanged(reg: Registry, render: Renderer, style: ElementId -> string, w: World, e: ElementId)
    requires Settled(style, w, e)
    ensures ScanOne(reg, render, style, w, e) == w
  {
  }

  /** After a scan, every element it visited is settled. */
  lemma {:induction false} ScanSettles(reg: Registry, render: Renderer, style: ElementId -> string, w: World, es: seq<ElementId>)
    ensures forall i :: 0 <= i < |es| ==> Settled(style, Scan(reg, render, style, w, es), es[i])
  {
    if es != [] {
      var init := es[..|es| - 1];
      var last := es[|es| - 1];
      ScanSettles(reg, render, style, w, init);
      var before := Scan(reg, render, style, w, init);
      ScanOneSettles(reg, render, style, before, last);
      forall i | 0 <= i < |es|
        ensures Settled(style, Scan(reg, render, style, w, es), es[i])
      {
        if es[i] != last {
          assert es[i] == init[i];
          assert SameRecord(before, ScanOne(reg, render, style, before, last), es[i]);
        }
      }
    }
  }

  /** A scan over settled elements changes nothing. */
  lemma {:induction false} ScanSettledUnchanged(reg: Registry, render: Renderer, style: ElementId -> string, w: World, es: seq<ElementId>)
    requires forall i :: 0 <= i < |es| ==> Settled(style, w, es[i])
    ensures Scan(reg, render, style, w, es) == w
  {
    if es != [] {
      var init := es[..|es| - 1];
      assert forall i :: 0 <= i < |init| ==> init[i] == es[i];
      ScanSettledUnchanged(reg, render, style, w, init);
      SettledUnchanged(reg, render, style, w, es[|es| - 1]);
    }
  }

  /** While the property values stay the same, a second scan changes nothing. */
  lemma ScanIdempotent(reg: Registry, render: Renderer, style: ElementId -> string, w: World, es: seq<ElementId>)
    ensures var once := Scan(reg, render, style, w, es);
            Scan(reg, render, style, once, es) == once
  {
    ScanSettles(reg, render, style, w, es);
    ScanSettledUnchanged(reg, render, style, Scan(reg, render, style, w, es), es);
  }

  // ---------------------------------------------------------------------
  // Containers

  lemma CountContainersAppend(kids: seq<Child>, defs: seq<FilterDef>, backdrop: string)
    ensures CountContainers(kids + [Svg(defs), Container(backdrop)]) == CountContainers(kids) + 1
  {
    var all := kids + [Svg(defs), Container(backdrop)];
    assert all[..|all| - 1] == kids + [Svg(defs)];
    assert (kids + [Svg(defs)])[..|kids|] == kids;
  }

  lemma {:induction false} NoContainerCount(kids: seq<Child>)
    requires forall c :: c in kids ==> !c.Container?
    ensures CountContainers(kids) == 0
  {
    if kids != [] {
      assert kids[|kids| - 1] in kids;
      var init := kids[..|kids| - 1];
      assert forall c :: c in init ==> c in kids;
      NoContainerCount(init);
    }
  }

  /** Every element has at most one `.fx-container` child. */
  ghost predicate SingleContainers(w: World) {
    forall e :: CountContainers(Kids(w.children, e)) <= 1
  }

  /**
   * `addFxContainer` on an element without a container appends the svg
   * block and the container exactly when the fold produced a part, and then
   * records the element; otherwise it leaves the children and the records
   * as they were.
   */
  lemma AddAppendsIffParts(reg: Registry, render: Renderer, w: World, e: ElementId, value: string)
    requires CountContainers(Kids(w.children, e)) == 0
    ensures var syn := Synthesize(reg, render, e, Parse(reg.Keys, value), w.serial);
            var after := AddSpec(reg, render, w, e, value);
            && (syn.tokens != [] ==>
                  && after.children == w.children[e := Kids(w.children, e) + [Svg(syn.defs), Container(Backdrop(syn.tokens))]]
                  && after.elements == w.elements[e := ElementState(value, true)])
            && (syn.tokens == [] ==> after.children == w.children && after.elements == w.elements)
  {
    var items := Parse(reg.Keys, value);
    var syn := Synthesize(reg, render, e, items, w.serial);
    ParsedCssNotBlank(reg.Keys, value);
    BackdropBlankIffNoTokens(reg, render, e, items, w.serial);
    assert AddSpec(reg, render, w, e, value) == Attach(w, e, value, syn);
    AttachIffParts(w, e, value, syn);
  }

  lemma AttachIffParts(w: World, e: ElementId, value: string, syn: Synthesis)
    requires Trim(Backdrop(syn.tokens)) == [] <==> syn.tokens == []
    ensures var after := Attach(w, e, value, syn);
            && (syn.tokens != [] ==>
                  && after.children == w.children[e := Kids(w.children, e) + [Svg(syn.defs), Container(Backdrop(syn.tokens))]]
                  && after.elements == w.elements[e := ElementState(value, true)])
            && (syn.tokens == [] ==> after.children == w.children && after.elements == w.elements)
  {
  }

  /** `addFxContainer` never gives an element a second container. */
  lemma AddKeepsSingleContainers(reg: Registry, render: Renderer, w: World, e: ElementId, value: string)
    requires SingleContainers(w)
    ensures SingleContainers(AddSpec(reg, render, w, e, value))
  {
    if CountContainers(Kids(w.children, e)) == 0 {
      AttachKeepsSingleContainers(w, e, value, Synthesize(reg, render, e, Parse(reg.Keys, value), w.serial));
    }
  }

  /** Attaching an svg block and a container to an element that has none keeps one container per element. */
  lemma AttachKeepsSingleContainers(w: World, e: ElementId, value: string, syn: Synthesis)
    requires SingleContainers(w) && CountContainers(Kids(w.children, e)) == 0
    ensures SingleContainers(Attach(w, e, value, syn))
  {
    var after := Attach(w, e, value, syn);
    if Trim(Backdrop(syn.tokens)) != [] {
      CountContainersAppend(Kids(w.children, e), syn.defs, Backdrop(syn.tokens));
      forall other ensures CountContainers(Kids(after.children, other)) <= 1 {
        if other != e {
          assert Kids(after.children, other) == Kids(w.children, other);
        }
      }
    }
  }

  /**
   * `removeFxContainer` leaves the element no container and no svg; the
   * other children stay in order, and nothing else changes.
   */
  lemma RemoveClears(w: World, e: ElementId)
    ensures var after := RemoveSpec(w, e);
            && Kids(after.children, e) == Strip(Kids(w.children, e))
            && (forall c :: c in Kids(after.children, e) <==> c in Kids(w.children, e) && c.Content?)
            && CountContainers(Kids(after.children, e)) == 0
            && (forall other :: other != e ==> Kids(after.children, other) == Kids(w.children, other))
            && after.elements == w.elements && after.serial == w.serial
  {
    NoContainerCount(Kids(RemoveSpec(w, e).children, e));
  }

  /** Removal works child by child: stripping a concatenation strips each part. */
  lemma {:induction false} StripAppend(a: seq<Child>, b: seq<Child>)
    ensures Strip(a + b) == Strip(a) + Strip(b)
    decreases |b|
  {
    if b != [] {
      var init := b[..|b| - 1];
      assert (a + b)[..|a + b| - 1] == a + init;
      StripAppend(a, init);
    } else {
      assert a + b == a;
    }
  }

  /** Children that are neither svg blocks nor containers are all kept, in their order. */
  lemma {:induction false} StripContent(kids: seq<Child>)
    requires forall k :: 0 <= k < |kids| ==> kids[k].Content?
    ensures Strip(kids) == kids
  {
    if kids != [] {
      var init := kids[..|kids| - 1];
      StripContent(init);
      assert kids == init + [kids[|kids| - 1]];
    }
  }

  /** Removal undoes what `addFxContainer` appended: the svg block and the container go, and the children before them are stripped as before. */
  lemma StripDropsAttached(kids: seq<Child>, defs: seq<FilterDef>, backdrop: string)
    ensures Strip(kids + [Svg(defs), Container(backdrop)]) == Strip(kids)
  {
    StripAppend(kids, [Svg(defs), Container(backdrop)]);
    assert [Svg(defs), Container(backdrop)][..1] == [Svg(defs)];
    assert Strip([Svg(defs)]) == [];
  }

  lemma RemoveKeepsSingleContainers(w: World, e: ElementId)
    requires SingleContainers(w)
    ensures SingleContainers(RemoveSpec(w, e))
  {
    RemoveClears(w, e);
    var after := RemoveSpec(w, e);
    forall other ensures CountContainers(Kids(after.children, other)) <= 1 {
      if other != e {
        assert Kids(after.children, other) == Kids(w.children, other);
      }
    }
  }

  lemma ScanOneKeepsSingleContainers(reg: Registry, render: Renderer, style: ElementId -> string, w: World, e: ElementId)
    requires SingleContainers(w)
    ensures SingleContainers(ScanOne(reg, render, style, w, e))
  {
    var v := GetFxFilterValue(style(e));
    if v.Some? {
      if e !in w.elements {
        AddKeepsSingleContainers(reg, render, w, e, v.value);
      } else if w.elements[e].filter != v.value {
        RemoveKeepsSingleContainers(w, e);
        AddKeepsSingleContainers(reg, render, RemoveSpec(w, e), e, v.value);
      }
    } else {
      RemoveKeepsSingleContainers(w, e);
    }
  }

  /** However often the value changes between scans, no element gets a second container. */
  lemma {:induction false} ScanKeepsSingleContainers(reg: Registry, render: Renderer, style: ElementId -> string, w: World, es: seq<ElementId>)
    requires SingleContainers(w)
    ensures SingleContainers(Scan(reg, render, style, w, es))
  {
    if es != [] {
      ScanKeepsSingleContainers(reg, render, style, w, es[..|es| - 1]);
      ScanOneKeepsSingleContainers(reg, render, style, Scan(reg, render, style, w, es[..|es| - 1]), es[|es| - 1]);
    }
  }

  // ---------------------------------------------------------------------
  // Teardown: a container always has a record

  /**
   * Every element with a container has a record, and every record says
   * that a container was appended. The scan keeps this, so an element
   * whose value has gone blank loses its container on the next visit.
   */
  ghost predicate Tracked(w: World) {
    && (forall e :: CountContainers(Kids(w.children, e)) > 0 ==> e in w.elements)
    && (forall e :: e in w.elements ==> w.elements[e].hasContainer)
  }

  /** The final step of `addFxContainer` changes no other element's children. */
  lemma AttachKeepsOthers(w: World, e: ElementId, value: string, syn: Synthesis)
    ensures forall other :: other != e ==> Kids(Attach(w, e, value, syn).children, other) == Kids(w.children, other)
  {
  }

  /** `addFxContainer` changes no other element's children. */
  lemma AddSpecKeepsOthers(reg: Registry, render: Renderer, w: World, e: ElementId, value: string)
    ensures forall other :: other != e ==> Kids(AddSpec(reg, render, w, e, value).children, other) == Kids(w.children, other)
  {
    if CountContainers(Kids(w.children, e)) == 0 {
      AttachKeepsOthers(w, e, value, Synthesize(reg, render, e, Parse(reg.Keys, value), w.serial));
    }
  }

  /** Recording `e` after `addFxContainer` keeps every container recorded. */
  lemma AddRecordKeepsTracked(reg: Registry, render: Renderer, w: World, e: ElementId, f: string)
    requires Tracked(w)
    ensures Tracked(Record(AddSpec(reg, render, w, e, f), e, f))
  {
    var r := Record(AddSpec(reg, render, w, e, f), e, f);
    AddRecordSettles(reg, render, w, e, f);
    AddSpecKeepsOthers(reg, render, w, e, f);
    forall other | CountContainers(Kids(r.children, other)) > 0 ensures other in r.elements {
      if other != e {
        assert Kids(r.children, other) == Kids(w.children, other);
      }
    }
  }

  /** `removeFxContainer` keeps every container recorded and every record intact. */
  lemma RemoveKeepsTracked(w: World, e: ElementId)
    requires Tracked(w)
    ensures Tracked(RemoveSpec(w, e))
  {
    RemoveClears(w, e);
    var r := RemoveSpec(w, e);
    forall other | CountContainers(Kids(r.children, other)) > 0 ensures other in r.elements {
      assert Kids(r.children, other) == Kids(w.children, other);
    }
  }

  /** One visit of the scan changes no other element's children. */
  lemma ScanOneKeepsOthers(reg: Registry, render: Renderer, style: ElementId -> string, w: World, e: ElementId)
    ensures forall other :: other != e ==> Kids(ScanOne(reg, render, style, w, e).children, other) == Kids(w.children, other)
  {
    var v := GetFxFilterValue(style(e));
    if v.Some? {
      if e !in w.elements {
        AddSpecKeepsOthers(reg, render, w, e, v.value);
      } else if w.elements[e].filter != v.value {
        RemoveClears(w, e);
        AddSpecKeepsOthers(reg, render, RemoveSpec(w, e), e, v.value);
      }
    } else if e in w.elements && w.elements[e].hasContainer {
      RemoveClears(w, e);
    }
  }

  lemma ScanOneKeepsTracked(reg: Registry, render: Renderer, style: ElementId -> string, w: World, e: ElementId)
    requires Tracked(w)
    ensures Tracked(ScanOne(reg, render, style, w, e))
  {
    var v := GetFxFilterValue(style(e));
    if v.Some? {
      if e !in w.elements {
        AddRecordKeepsTracked(reg, render, w, e, v.value);
      } else if w.elements[e].filter != v.value {
        RemoveKeepsTracked(w, e);
        AddRecordKeepsTracked(reg, render, RemoveSpec(w, e), e, v.value);
      }
    } else if e in w.elements && w.elements[e].hasContainer {
      BlankRemovalKeepsTracked(w, e);
    }
  }

  /** Removing the container of `e` and forgetting its record keeps every container recorded. */
  lemma BlankRemovalKeepsTracked(w: World, e: ElementId)
    requires Tracked(w)
    ensures Tracked(RemoveSpec(w, e).(elements := w.elements - {e}))
  {
    RemoveClears(w, e);
    var r := RemoveSpec(w, e).(elements := w.elements - {e});
    forall other | CountContainers(Kids(r.children, other)) > 0 ensures other in r.elements {
      assert other != e;
      assert Kids(r.children, other) == Kids(w.children, other);
    }
  }

  /** However the values change between scans, every container stays recorded. */
  lemma {:induction false} ScanKeepsTracked(reg: Registry, render: Renderer, style: ElementId -> string, w: World, es: seq<ElementId>)
    requires Tracked(w)
    ensures Tracked(Scan(reg, render, style, w, es))
  {
    if es != [] {
      ScanKeepsTracked(reg, render, style, w, es[..|es| - 1]);
      ScanOneKeepsTracked(reg, render, style, Scan(reg, render, style, w, es[..|es| - 1]), es[|es| - 1]);
    }
  }

  /**
   * A visit to an element whose value has gone blank while it has a
   * container removes its svg block and container, keeps its other
   * children in order, and forgets its record.
   */
  lemma ScanOneTearsDown(reg: Registry, render: Renderer, style: ElementId -> string, w: World, e: ElementId)
    requires AllSpace(style(e)) && e in w.elements && w.elements[e].hasContainer
    ensures var after := ScanOne(reg, render, style, w, e);
            && Kids(after.children, e) == Strip(Kids(w.children, e))
            && CountContainers(Kids(after.children, e)) == 0
            && (forall c :: c in Kids(after.children, e) ==> c.Content?)
            && e !in after.elements
  {
    RemoveClears(w, e);
  }

  /**
   * With every container recorded, a visit to an element whose value is new
   * or has changed removes what the old value attached (only when there was
   * an old value), appends what the new one builds, and records the new
   * value with a container.
   */
  lemma ScanOneRebuilds(reg: Registry, render: Renderer, style: ElementId -> string, w: World, e: ElementId, f: string)
    requires Tracked(w)
    requires GetFxFilterValue(style(e)) == Some(f)
    requires e !in w.elements || w.elements[e].filter != f
    ensures var base := if e in w.elements then Strip(Kids(w.children, e)) else Kids(w.children, e);
            var syn := Synthesize(reg, render, e, Parse(reg.Keys, f), w.serial);
            var after := ScanOne(reg, render, style, w, e);
            && Kids(after.children, e)
               == base + (if syn.tokens != [] then [Svg(syn.defs), Container(Backdrop(syn.tokens))] else [])
            && (forall other :: other != e ==> Kids(after.children, other) == Kids(w.children, other))
            && after.elements == w.elements[e := ElementState(f, true)]
  {
    var r := ScanOne(reg, render, style, w, e);
    if e in w.elements {
      var w0 := RemoveSpec(w, e);
      RemoveClears(w, e);
      assert r == Record(AddSpec(reg, render, w0, e, f), e, f);
      AddRecordRebuilds(reg, render, w0, e, f);
    } else {
      assert CountContainers(Kids(w.children, e)) == 0;
      assert r == Record(AddSpec(reg, render, w, e, f), e, f);
      AddRecordRebuilds(reg, render, w, e, f);
    }
  }

  /** Adding to an element without a container and recording it. */
  lemma AddRecordRebuilds(reg: Registry, render: Renderer, w: World, e: ElementId, f: string)
    requires CountContainers(Kids(w.children, e)) == 0
    ensures var syn := Synthesize(reg, render, e, Parse(reg.Keys, f), w.serial);
            var after := Record(AddSpec(reg, render, w, e, f), e, f);
            && Kids(after.children, e)
               == Kids(w.children, e) + (if syn.tokens != [] then [Svg(syn.defs), Container(Backdrop(syn.tokens))] else [])
            && (forall other :: other != e ==> Kids(after.children, other) == Kids(w.children, other))
            && after.elements == w.elements[e := ElementState(f, true)]
  {
    AddAppendsIffParts(reg, render, w, e, f);
    RecordAfterAttach(w, AddSpec(reg, render, w, e, f), e, f, Synthesize(reg, render, e, Parse(reg.Keys, f), w.serial));
  }

  lemma RecordAfterAttach(w: World, added: World, e: ElementId, f: string, syn: Synthesis)
    requires syn.tokens != [] ==>
               && added.children == w.children[e := Kids(w.children, e) + [Svg(syn.defs), Container(Backdrop(syn.tokens))]]
               && added.elements == w.elements[e := ElementState(f, true)]
    requires syn.tokens == [] ==> added.children == w.children && added.elements == w.elements
    ensures var after := Record(added, e, f);
            && Kids(after.children, e)
               == Kids(w.children, e) + (if syn.tokens != [] then [Svg(syn.defs), Container(Backdrop(syn.tokens))] else [])
            && (forall other :: other != e ==> Kids(after.children, other) == Kids(w.children, other))
            && after.elements == w.elements[e := ElementState(f, true)]
  {
    if syn.tokens == [] {
      assert Kids(w.children, e) + [] == Kids(w.children, e);
    }
  }

  /** With every container recorded, a visit to an element with a blank value leaves it no container and no record. */
  lemma ScanOneBlankClears(reg: Registry, render: Renderer, style: ElementId -> string, w: World, e: ElementId)
    requires Tracked(w) && AllSpace(style(e))
    ensures var after := ScanOne(reg, render, style, w, e);
            CountContainers(Kids(after.children, e)) == 0 && e !in after.elements
  {
    if e in w.elements {
      ScanOneTearsDown(reg, render, style, w, e);
    }
  }

  /** After a scan from a tracked state, every visited element with a blank value has no container and no record. */
  lemma {:induction false} ScanClearsBlank(reg: Registry, render: Renderer, style: ElementId -> string, w: World, es: seq<ElementId>, i: nat)
    requires Tracked(w) && i < |es| && AllSpace(style(es[i]))
    ensures var after := Scan(reg, render, style, w, es);
            CountContainers(Kids(after.children, es[i])) == 0 && es[i] !in after.elements
  {
    var init := es[..|es| - 1];
    var last := es[|es| - 1];
    var before := Scan(reg, render, style, w, init);
    if i + 1 == |es| || es[i] == last {
      ScanKeepsTracked(reg, render, style, w, init);
      ScanOneBlankClears(reg, render, style, before, last);
    } else {
      assert i < |init|;
      assert es[i] == init[i];
      ScanClearsBlank(reg, render, style, w, init, i);
      ScanOneKeepsCleared(reg, render, style, before, last, es[i]);
    }
  }

  /** A visit to another element gives a cleared element no container and no record back. */
  lemma ScanOneKeepsCleared(reg: Registry, render: Renderer, style: ElementId -> string, w: World, e: ElementId, x: ElementId)
    requires x != e && CountContainers(Kids(w.children, x)) == 0 && x !in w.elements
    ensures var after := ScanOne(reg, render, style, w, e);
            CountContainers(Kids(after.children, x)) == 0 && x !in after.elements
  {
    ScanOneKeepsOthers(reg, render, style, w, e);
    ScanOneSettles(reg, render, style, w, e);
    assert SameRecord(w, ScanOne(reg, render, style, w, e), x);
  }

  // ---------------------------------------------------------------------
  // The imperative code

  /** The document: the children of each element, in order. */
  class Document {
    var children: map<ElementId, seq<Child>>

    constructor (children: map<ElementId, seq<Child>>)
      ensures this.children == children
    {
      this.children := children;
    }
  }

  /** The static state of `FxFilter`: the registry, the element records and the id supply. */
  class FxFilter {
    var filters: Registry
    var elements: map<ElementId, ElementState>
    var serial: nat

    constructor ()
      ensures filters == map[] && elements == map[] && serial == 0
    {
      filters := map[];
      elements := map[];
      serial := 0;
    }

    function State(doc: Document): World
      reads this, doc
    {
      World(doc.children, elements, serial)
    }

    /** `add(name, callback)`: a later registration under a name replaces the earlier one. */
    method Add(name: string, callback: Callback)
      modifies this
      ensures filters == old(filters)[name := callback]
      ensures elements == old(elements) && serial == old(serial)
    {
      filters := filters[name := callback];
    }

    /**
     * `parseFilterValue`: `exec` from `lastIndex` until it fails, each match
     * pushed as a custom entry (also onto `customFilters`) when its name is
     * registered, otherwise as its CSS text.
     */
    method ParseFilterValue(filterValue: string) returns (ordered: seq<OrderedFilter>, customs: seq<CustomFilter>)
      ensures ordered == Parse(filters.Keys, filterValue)
      ensures customs == CustomsOf(ordered)
    {
      ordered, customs := ExecLoop(filters.Keys, filterValue);
    }

    /**
     * `addFxContainer(element, filterValue)`: the `forEach` over the parsed
     * entries, drawing a fresh id for each custom entry with a callback,
     * then the append when the joined parts are not blank.
     */
    method AddFxContainer(doc: Document, render: Renderer, element: ElementId, filterValue: string)
      modifies this, doc
      ensures State(doc) == AddSpec(old(filters), render, old(State(doc)), element, filterValue)
      ensures filters == old(filters)
    {
      if CountContainers(Kids(doc.children, element)) > 0 {
        return;
      }
      var ordered, customs := ParseFilterValue(filterValue);
      var filterParts, svgContent := BuildParts(render, element, ordered);
      AddSpecAttaches(filters, render, old(State(doc)), element, filterValue, ordered, Synthesis(filterParts, svgContent, serial));
      var backdropFilter := Backdrop(filterParts);
      if Trim(backdropFilter) != [] {
        doc.children := doc.children[element := Kids(doc.children, element) + [Svg(svgContent), Container(backdropFilter)]];
        elements := elements[element := ElementState(filterValue, true)];
      }
    }

    /**
     * The `forEach` of `addFxContainer` over the parsed entries: the filter
     * parts and the svg definitions, drawing one id per rendered entry.
     */
    method BuildParts(render: Renderer, element: ElementId, ordered: seq<OrderedFilter>)
      returns (filterParts: seq<Token>, svgContent: seq<FilterDef>)
      modifies this
      ensures Synthesis(filterParts, svgContent, serial) == Synthesize(filters, render, element, ordered, old(serial))
      ensures filters == old(filters) && elements == old(elements)
    {
      filterParts := [];
      svgContent := [];
      var i := 0;
      while i < |ordered|
        invariant 0 <= i <= |ordered|
        invariant Synthesize(filters, render, element, ordered[..i], old(serial)) == Synthesis(filterParts, svgContent, serial)
        invariant filters == old(filters) && elements == old(elements)
      {
        var item := ordered[i];
        SynthesizePrefix(filters, render, element, ordered, i, old(serial));
        match item {
          case Custom(filter) =>
            if filter.name in filters && filters[filter.name].Handle? {
              var filterId := FilterId(filter.name, serial);
              serial := serial + 1;
              var filterContent := render(filters[filter.name].id, element, filter.params);
              svgContent := svgContent + [FilterDef(filterId, filterContent)];
              filterParts := filterParts + [UrlToken(filterId)];
            }
          case Css(text) =>
            filterParts := filterParts + [CssToken(text)];
        }
        i := i + 1;
      }
      assert ordered[..|ordered|] == ordered;
    }

    /** `removeFxContainer(element)`: every container and svg child is removed, one by one. */
    method RemoveFxContainer(doc: Document, element: ElementId)
      modifies doc
      ensures State(doc) == RemoveSpec(old(State(doc)), element)
    {
      if element in doc.children {
        var kids := doc.children[element];
        var kept: seq<Child> := [];
        var i := 0;
        while i < |kids|
          invariant 0 <= i <= |kids|
          invariant kept == Strip(kids[..i])
        {
          if kids[i].Content? {
            kept := kept + [kids[i]];
          }
          assert kids[..i + 1][..i] == kids[..i];
          i := i + 1;
        }
        assert kids[..|kids|] == kids;
        doc.children := doc.children[element := kept];
      }
    }

    /**
     * `scanElements` over the elements the document query returned, with
     * `style` giving the raw `--fx-filter` value of each.
     */
    method ScanElements(doc: Document, render: Renderer, style: ElementId -> string, queried: seq<ElementId>)
      modifies this, doc
      ensures State(doc) == Scan(old(filters), render, style, old(State(doc)), queried)
      ensures filters == old(filters)
    {
      var i := 0;
      while i < |queried|
        invariant 0 <= i <= |queried|
        invariant filters == old(filters)
        invariant State(doc) == Scan(filters, render, style, old(State(doc)), queried[..i])
      {
        var element := queried[i];
        var fxFilter := GetFxFilterValue(style(element));
        var storedState := if element in elements then Some(elements[element]) else None;
        if fxFilter.Some? {
          if storedState.None? {
            AddFxContainer(doc, render, element, fxFilter.value);
            elements := elements[element := ElementState(fxFilter.value, true)];
          } else if storedState.value.filter != fxFilter.value {
            RemoveFxContainer(doc, element);
            AddFxContainer(doc, render, element, fxFilter.value);
            elements := elements[element := ElementState(fxFilter.value, true)];
          }
        } else if storedState.Some? && storedState.value.hasContainer {
          RemoveFxContainer(doc, element);
          elements := elements - {element};
        }
        assert queried[..i + 1][..i] == queried[..i];
        i := i + 1;
      }
      assert queried[..|queried|] == queried;
    }
  }
}
