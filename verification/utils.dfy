/**
 * `dlToDict`: turns the children of a description list into a field dictionary. Every `dt`
 * gives a key (its trimmed, lower-cased text); the value is the trimmed text of the element
 * right after it, whatever that element is, and is stored only when it is non-empty.
 */
module Utils {
  import opened Wrappers
  import opened Strings

  datatype Tag = DT | DD | OtherTag

  /** An element child of the list, with the text content of its subtree. */
  datatype Element = Element(tag: Tag, text: string)

  /** The key a `dt` gives. */
  function Key(e: Element): string {
    ToLower(Trim(e.text))
  }

  /** What the child at `i` contributes: a `dt` followed by an element with non-empty trimmed text. */
  function EntryAt(children: seq<Element>, i: nat): Option<(string, string)>
    requires i < |children|
  {
    if children[i].tag == DT && i + 1 < |children| && Trim(children[i + 1].text) != [] then
      Some((Key(children[i]), Trim(children[i + 1].text)))
    else None
  }

  /** The contributions of all children, in document order. */
  function Entries(children: seq<Element>): (es: seq<Option<(string, string)>>)
    ensures |es| == |children|
    ensures forall i :: 0 <= i < |children| ==> es[i] == EntryAt(children, i)
  {
    seq(|children|, i requires 0 <= i < |children| => EntryAt(children, i))
  }

  /** A table built by storing the entries one after the other; a later key overwrites an earlier one. */
  function Collect<K, V>(es: seq<Option<(K, V)>>): map<K, V> {
    if es == [] then map[]
    else
      var d := Collect(es[..|es| - 1]);
      match es[|es| - 1]
      case None => d
      case Some(kv) => d[kv.0 := kv.1]
  }

  /** The dictionary `dlToDict` returns for a list with these children. */
  function Dict(children: seq<Element>): map<string, string> {
    Collect(Entries(children))
  }

  /** The loop of `dlToDict`, updating the dictionary in place, one `dt` at a time. */
  method DlToDict(children: seq<Element>) returns (dict: map<string, string>)
    ensures dict == Dict(children)
  {
    ghost var es := Entries(children);
    dict := map[];
    var i := 0;
    while i < |children|
      invariant 0 <= i <= |children|
      invariant dict == Collect(es[..i])
    {
      CollectSnoc(es, i);
      if children[i].tag == DT {
        var key := ToLower(Trim(children[i].text));
        if i + 1 < |children| {
          var value := Trim(children[i + 1].text);
          if value != [] {
            dict := dict[key := value];
          }
        }
      }
      i := i + 1;
    }
    assert es[..|children|] == es;
  }

  /** Collecting one more entry stores it over what was collected before. */
  lemma CollectSnoc<K, V>(es: seq<Option<(K, V)>>, i: nat)
    requires i < |es|
    ensures Collect(es[..i + 1]) == if es[i].Some? then Collect(es[..i])[es[i].value.0 := es[i].value.1] else Collect(es[..i])
  {
    assert es[..i + 1][..i] == es[..i];
  }

  /** The keys of a collected table are exactly the keys of its entries. */
  lemma {:induction false} CollectKeys<K, V>(es: seq<Option<(K, V)>>, k: K)
    ensures k in Collect(es) <==> exists i :: 0 <= i < |es| && es[i].Some? && es[i].value.0 == k
    decreases |es|
  {
    if es != [] {
      var init := es[..|es| - 1];
      CollectKeys(init, k);
      assert forall i :: 0 <= i < |init| ==> init[i] == es[i];
    }
  }

  /**
   * The value of a key in a collected table comes from the LAST entry with that key: a later
   * duplicate overwrites an earlier one.
   */
  lemma {:induction false} CollectLastWins<K, V>(es: seq<Option<(K, V)>>, k: K)
    requires k in Collect(es)
    ensures exists i :: 0 <= i < |es| && es[i] == Some((k, Collect(es)[k]))
                        && (forall j :: i < j < |es| && es[j].Some? ==> es[j].value.0 != k)
    decreases |es|
  {
    var init := es[..|es| - 1];
    var last := |es| - 1;
    assert forall i :: 0 <= i < |init| ==> init[i] == es[i];
    if es[last].Some? && es[last].value.0 == k {
      assert es[last] == Some((k, Collect(es)[k]));
    } else {
      assert Collect(es)[k] == Collect(init)[k];
      CollectLastWins(init, k);
      var i :| 0 <= i < |init| && init[i] == Some((k, Collect(init)[k]))
                && (forall j :: i < j < |init| && init[j].Some? ==> init[j].value.0 != k);
      assert es[i] == Some((k, Collect(es)[k]));
    }
  }

  /** The dictionary holds exactly the keys of `dt`s whose next sibling has non-empty text. */
  lemma DictKeys(children: seq<Element>, k: string)
    ensures k in Dict(children) <==>
            exists i :: 0 <= i < |children| && EntryAt(children, i).Some? && Key(children[i]) == k
  {
    CollectKeys(Entries(children), k);
  }

  /** Each stored value is that of the last `dt` with the key; no later `dt` of that key stores anything. */
  lemma DictLastWins(children: seq<Element>, k: string)
    requires k in Dict(children)
    ensures exists i :: 0 <= i < |children| && EntryAt(children, i) == Some((k, Dict(children)[k]))
                        && (forall j :: i < j < |children| && EntryAt(children, j).Some? ==> Key(children[j]) != k)
  {
    CollectLastWins(Entries(children), k);
  }

  /** Keys are trimmed and lower case; values are trimmed and non-empty. */
  lemma DictClean(children: seq<Element>, k: string)
    requires k in Dict(children)
    ensures NoEdgeWs(k) && IsLower(k)
    ensures Dict(children)[k] != [] && NoEdgeWs(Dict(children)[k])
  {
    DictLastWins(children, k);
    var i :| 0 <= i < |children| && EntryAt(children, i) == Some((k, Dict(children)[k]));
    ToLowerFacts(Trim(children[i].text));
  }
}
