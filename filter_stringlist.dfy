/** Reading a configuration list of strings, as the `blacklist` and `site`
    filters do with their configuration. */
module StringList {
  import opened Wrappers
  import opened Values

  /** The list's strings, or None when some element is not a string. */
  function Strings(items: seq<Value>): (r: Option<seq<string>>)
    decreases |items|
  {
    if items == [] then Some([])
    else match Strings(items[..|items| - 1])
      case None => None
      case Some(ss) =>
        if items[|items| - 1].Str? then Some(ss + [items[|items| - 1].s]) else None
  }

  /** Strings succeeds exactly when every element is a string, and then
      yields those strings in order. */
  lemma {:induction false} StringsExact(items: seq<Value>)
    ensures Strings(items).Some? <==> forall k :: 0 <= k < |items| ==> items[k].Str?
    ensures Strings(items).Some? ==>
      |Strings(items).value| == |items| &&
      forall k :: 0 <= k < |items| ==> Strings(items).value[k] == items[k].s
    decreases |items|
  {
    if items != [] {
      var init := items[..|items| - 1];
      StringsExact(init);
      assert forall k :: 0 <= k < |init| ==> init[k] == items[k];
    }
  }
}
