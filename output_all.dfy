/** The combined output (output/all/output.go): instantiates every
    configured output adapter with its filter set, and hands each output
    the nodes as its own filter set lets them through. */
module OutputAll {
  import opened Wrappers
  import opened Values

  /** An output adapter: its type name and its registration function, which
      yields an error, no output (to be skipped), or an output. */
  datatype Adapter<O> = Adapter(name: string, register: map<string, Value> -> Result<Option<O>, string>)

  /** Why registration failed. An adapter's own error is passed on as is. */
  datatype RegisterError =
    | WrongFormat(outputType: string)
    | AdapterError(error: string)
    | FilterConfigErrors(errors: seq<string>)

  /** A registered output: `filter` is None when its configuration has no
      filter entry, Some(None) when the entry is not a map (a nil filter
      set), and Some(Some(s)) for the set `s` that the filter factory
      built. */
  datatype Entry<O, F> = Entry(output: O, filter: Option<Option<F>>)

  /** The combined output: outputs and filter sets indexed from 1. */
  datatype All<O, F> = All(list: map<int, O>, outputFilter: map<int, Option<F>>)

  /** What one configuration element of an adapter contributes; `newFilter`
      is the filter factory, returning a set and its configuration errors. */
  function ElementEntry<O, F>(a: Adapter<O>, newFilter: map<string, Value> -> (F, seq<string>), element: Value)
    : (r: Result<Option<Entry<O, F>>, RegisterError>)
    // an element that is not a map is a format error
    ensures !element.Object? ==> r == Err(WrongFormat(a.name))
    // only an explicit `enable = false` disables; a missing or non-boolean flag enables
    ensures element.Object? && Get(element.fields, "enable") == Bool(false) ==> r == Ok(None)
    ensures element.Object? && Get(element.fields, "enable") != Bool(false) ==>
      && (a.register(element.fields).Err? ==> r == Err(AdapterError(a.register(element.fields).error)))
      && (a.register(element.fields) == Ok(None) ==> r == Ok(None))
      && (a.register(element.fields).Ok? && a.register(element.fields).value.Some? ==>
            var o := a.register(element.fields).value.value;
            var c := Get(element.fields, "filter");
            && (c == Null ==> r == Ok(Some(Entry(o, None))))
            && (c.Object? && |newFilter(c.fields).1| > 0 ==> r == Err(FilterConfigErrors(newFilter(c.fields).1)))
            && (c.Object? && |newFilter(c.fields).1| == 0 ==> r == Ok(Some(Entry(o, Some(Some(newFilter(c.fields).0))))))
            && (c != Null && !c.Object? ==> r == Ok(Some(Entry(o, Some(None))))))
  {
    if !element.Object? then Err(WrongFormat(a.name))
    else if Get(element.fields, "enable") == Bool(false) then Ok(None)
    else match a.register(element.fields)
      case Err(e) => Err(AdapterError(e))
      case Ok(None) => Ok(None)
      case Ok(Some(o)) =>
        var c := Get(element.fields, "filter");
        if c == Null then Ok(Some(Entry(o, None)))
        else if c.Object? then
          var (filterSet, errs) := newFilter(c.fields);
          if |errs| > 0 then Err(FilterConfigErrors(errs)) else Ok(Some(Entry(o, Some(Some(filterSet)))))
        else Ok(Some(Entry(o, Some(None))))
  }

  /** The outputs elements[..upTo] of one adapter contribute, or the first
      error among them. */
  function ElementEntries<O, F>(a: Adapter<O>, newFilter: map<string, Value> -> (F, seq<string>),
                                elements: seq<Value>, upTo: nat): Result<seq<Entry<O, F>>, RegisterError>
    requires upTo <= |elements|
  {
    if upTo == 0 then Ok([])
    else match ElementEntries(a, newFilter, elements, upTo - 1)
      case Err(e) => Err(e)
      case Ok(es) =>
        match ElementEntry(a, newFilter, elements[upTo - 1])
        case Err(e) => Err(e)
        case Ok(None) => Ok(es)
        case Ok(Some(x)) => Ok(es + [x])
  }

  /** What one adapter contributes under the whole configuration. */
  function AdapterEntries<O, F>(a: Adapter<O>, newFilter: map<string, Value> -> (F, seq<string>),
                                configuration: map<string, Value>): (r: Result<seq<Entry<O, F>>, RegisterError>)
    ensures Get(configuration, a.name) == Null ==> r == Ok([])
    ensures Get(configuration, a.name) != Null && !Get(configuration, a.name).List? ==> r == Err(WrongFormat(a.name))
  {
    var c := Get(configuration, a.name);
    if c == Null then Ok([])
    else if !c.List? then Err(WrongFormat(a.name))
    else ElementEntries(a, newFilter, c.items, |c.items|)
  }

  /** The outputs of adapters[..upTo], in order, or the first error. */
  function Entries<O, F>(adapters: seq<Adapter<O>>, newFilter: map<string, Value> -> (F, seq<string>),
                         configuration: map<string, Value>, upTo: nat): Result<seq<Entry<O, F>>, RegisterError>
    requires upTo <= |adapters|
  {
    if upTo == 0 then Ok([])
    else match Entries(adapters, newFilter, configuration, upTo - 1)
      case Err(e) => Err(e)
      case Ok(es) =>
        match AdapterEntries(adapters[upTo - 1], newFilter, configuration)
        case Err(e) => Err(e)
        case Ok(more) => Ok(es + more)
  }

  /** Each configuration element registers at most one output. */
  lemma {:induction false} AtMostOnePerElement<O, F>(a: Adapter<O>, newFilter: map<string, Value> -> (F, seq<string>),
                                                     elements: seq<Value>, upTo: nat)
    requires upTo <= |elements| && ElementEntries(a, newFilter, elements, upTo).Ok?
    ensures |ElementEntries(a, newFilter, elements, upTo).value| <= upTo
    decreases upTo
  {
    if upTo > 0 {
      AtMostOnePerElement(a, newFilter, elements, upTo - 1);
    }
  }

  /** The first error stays the result. */
  lemma {:induction false} ElementEntriesErrorStays<O, F>(a: Adapter<O>, newFilter: map<string, Value> -> (F, seq<string>),
                                                          elements: seq<Value>, upTo: nat, later: nat)
    requires upTo <= later <= |elements| && ElementEntries(a, newFilter, elements, upTo).Err?
    ensures ElementEntries(a, newFilter, elements, later) == ElementEntries(a, newFilter, elements, upTo)
    decreases later
  {
    if later > upTo {
      ElementEntriesErrorStays(a, newFilter, elements, upTo, later - 1);
    }
  }

  /** The first error stays the result. */
  lemma {:induction false} EntriesErrorStays<O, F>(adapters: seq<Adapter<O>>, newFilter: map<string, Value> -> (F, seq<string>),
                                                   configuration: map<string, Value>, upTo: nat, later: nat)
    requires upTo <= later <= |adapters| && Entries(adapters, newFilter, configuration, upTo).Err?
    ensures Entries(adapters, newFilter, configuration, later) == Entries(adapters, newFilter, configuration, upTo)
    decreases later
  {
    if later > upTo {
      EntriesErrorStays(adapters, newFilter, configuration, upTo, later - 1);
    }
  }

  /** The maps of the combined output number the entries es from 1 on; a
      filter entry is recorded under an output's index only when that
      output's configuration has a filter. */
  ghost predicate Numbered<O, F>(list: map<int, O>, outputFilter: map<int, Option<F>>, es: seq<Entry<O, F>>)
  {
    && (forall i :: i in list <==> 1 <= i <= |es|)
    && (forall i :: 1 <= i <= |es| ==> list[i] == es[i - 1].output)
    && (forall i :: i in outputFilter <==> 1 <= i <= |es| && es[i - 1].filter.Some?)
    && (forall i :: i in outputFilter ==> outputFilter[i] == es[i - 1].filter.value)
  }

  /** Adding one entry under the next index keeps the numbering. */
  lemma NumberedAppend<O, F>(list: map<int, O>, outputFilter: map<int, Option<F>>, es: seq<Entry<O, F>>, x: Entry<O, F>)
    requires Numbered(list, outputFilter, es)
    ensures var i := |es| + 1;
      Numbered(list[i := x.output],
               if x.filter.Some? then outputFilter[i := x.filter.value] else outputFilter,
               es + [x])
  {
    var es' := es + [x];
    assert forall k :: 0 <= k < |es| ==> es'[k] == es[k];
  }

  /** One configuration element of the adapter `a`: registers its output
      under the next free index |es| + 1, or fails, or skips it. */
  method RegisterElement<O, F>(a: Adapter<O>, newFilter: map<string, Value> -> (F, seq<string>), outputConfig: Value,
                               list: map<int, O>, outputFilter: map<int, Option<F>>, i: int, ghost es: seq<Entry<O, F>>)
    returns (r: Result<(map<int, O>, map<int, Option<F>>, int), RegisterError>)
    requires i == |es| + 1 && Numbered(list, outputFilter, es)
    ensures var spec := ElementEntry(a, newFilter, outputConfig);
      && (spec.Err? ==> r == Err(spec.error))
      && (spec == Ok(None) ==> r == Ok((list, outputFilter, i)))
      && (spec.Ok? && spec.value.Some? ==>
            r.Ok? && r.value.2 == i + 1 && Numbered(r.value.0, r.value.1, es + [spec.value.value]))
  {
    if !outputConfig.Object? {
      return Err(WrongFormat(a.name));
    }
    var config := outputConfig.fields;
    if Get(config, "enable") == Bool(false) {
      return Ok((list, outputFilter, i));
    }
    var output := a.register(config);
    if output.Err? {
      return Err(AdapterError(output.error));
    }
    if output.value.None? {
      return Ok((list, outputFilter, i));
    }
    var filterEntry: Option<Option<F>> := None;
    var newOutputFilter := outputFilter;
    var c := Get(config, "filter");
    if c != Null {
      var errs: seq<string> := [];
      var filterSet: Option<F> := None;
      if c.Object? {
        var built := newFilter(c.fields);
        filterSet, errs := Some(built.0), built.1;
      }
      if |errs| > 0 {
        return Err(FilterConfigErrors(errs));
      }
      newOutputFilter := outputFilter[i := filterSet];
      filterEntry := Some(filterSet);
    }
    NumberedAppend(list, outputFilter, es, Entry(output.value.value, filterEntry));
    return Ok((list[i := output.value.value], newOutputFilter, i + 1));
  }

  /** Registers every configured output. Adapters are visited in the order
      given (the source's adapter map has no defined order) and each
      adapter's configuration list in its own order. A missing
      configuration skips the adapter; a configuration that is not a list,
      an element that is not a map, an adapter error or filter configuration
      errors abort with that error; a disabled element and an adapter that
      yields no output are skipped. Outputs are numbered 1, 2, ... in the
      order registered. */
  method Register<O, F>(adapters: seq<Adapter<O>>, newFilter: map<string, Value> -> (F, seq<string>),
                        configuration: map<string, Value>) returns (r: Result<All<O, F>, RegisterError>)
    ensures var spec := Entries(adapters, newFilter, configuration, |adapters|);
      && (spec.Err? ==> r == Err(spec.error))
      && (spec.Ok? ==> r.Ok? && Numbered(r.value.list, r.value.outputFilter, spec.value))
  {
    var list: map<int, O> := map[];
    var outputFilter: map<int, Option<F>> := map[];
    var i := 1;
    ghost var es: seq<Entry<O, F>> := [];
    for k := 0 to |adapters|
      invariant Entries(adapters, newFilter, configuration, k) == Ok(es)
      invariant i == |es| + 1
      invariant Numbered(list, outputFilter, es)
    {
      var outputType := adapters[k].name;
      var outputRegister := adapters[k].register;
      var configForOutput := Get(configuration, outputType);
      if configForOutput == Null {
        assert es + [] == es;
        continue;
      }
      if !configForOutput.List? {
        EntriesErrorStays(adapters, newFilter, configuration, k + 1, |adapters|);
        return Err(WrongFormat(outputType));
      }
      var outputConfigs := configForOutput.items;
      ghost var before := es;
      for m := 0 to |outputConfigs|
        invariant ElementEntries(adapters[k], newFilter, outputConfigs, m).Ok?
        invariant es == before + ElementEntries(adapters[k], newFilter, outputConfigs, m).value
        invariant i == |es| + 1
        invariant Numbered(list, outputFilter, es)
      {
        var step := RegisterElement(adapters[k], newFilter, outputConfigs[m], list, outputFilter, i, es);
        if step.Err? {
          ElementEntriesErrorStays(adapters[k], newFilter, outputConfigs, m + 1, |outputConfigs|);
          EntriesErrorStays(adapters, newFilter, configuration, k + 1, |adapters|);
          return Err(step.error);
        }
        ghost var added := ElementEntry(adapters[k], newFilter, outputConfigs[m]).value;
        if added.Some? {
          es := es + [added.value];
        }
        list, outputFilter, i := step.value.0, step.value.1, step.value.2;
      }
      assert AdapterEntries(adapters[k], newFilter, configuration)
          == ElementEntries(adapters[k], newFilter, outputConfigs, |outputConfigs|);
    }
    return Ok(All(list, outputFilter));
  }

  /** The filter set recorded under index i; the nil set when none is. */
  function FilterOf<O, F>(o: All<O, F>, i: int): Option<F>
  {
    if i in o.outputFilter then o.outputFilter[i] else None
  }

  /** Hands every registered output the nodes its own filter set lets
      through. `order` is the iteration order of the output map, `apply`
      applies a (possibly nil) filter set to the nodes. Returns the calls
      made, in order. */
  method Save<O, F, N>(o: All<O, F>, nodes: N, order: seq<int>, apply: (Option<F>, N) -> N)
    returns (calls: seq<(O, N)>)
    requires forall k :: 0 <= k < |order| ==> order[k] in o.list
    ensures |calls| == |order|
    ensures forall k :: 0 <= k < |order| ==> calls[k] == (o.list[order[k]], apply(FilterOf(o, order[k]), nodes))
  {
    calls := [];
    for k := 0 to |order|
      invariant |calls| == k
      invariant forall j :: 0 <= j < k ==> calls[j] == (o.list[order[j]], apply(FilterOf(o, order[j]), nodes))
    {
      var i := order[k];
      calls := calls + [(o.list[i], apply(FilterOf(o, i), nodes))];
    }
  }

  /** When the order visits every index once, each registered output is
      called exactly once, with its own index's filter set. */
  lemma SaveCallsEachOnce<O, F, N>(o: All<O, F>, nodes: N, order: seq<int>, apply: (Option<F>, N) -> N,
                                   calls: seq<(O, N)>, i: int)
    requires forall k :: 0 <= k < |order| ==> order[k] in o.list
    requires forall a, b :: 0 <= a < b < |order| ==> order[a] != order[b]
    requires o.list.Keys == set k | 0 <= k < |order| :: order[k]
    requires |calls| == |order|
    requires forall k :: 0 <= k < |order| ==> calls[k] == (o.list[order[k]], apply(FilterOf(o, order[k]), nodes))
    requires i in o.list
    ensures exists k :: 0 <= k < |order| && order[k] == i && calls[k] == (o.list[i], apply(FilterOf(o, i), nodes))
    ensures forall k, j :: 0 <= k < j < |order| ==> !(order[k] == i && order[j] == i)
  {
  }
}
