/**
 * Building a lookup by writing entries in order, so that a later entry for a key
 * overwrites an earlier one: the front-matter `reduce` (src/utils.js), the footnote
 * table (src/review-detail.js) and the review lookup (src/home.js) all do this.
 */
module Assoc {
  import opened Text

  /** One step: an entry overwrites its key, a non-entry leaves the map alone. */
  function Put<V>(m: map<string, V>, e: Option<(string, V)>): map<string, V> {
    match e
    case None => m
    case Some(kv) => m[kv.0 := kv.1]
  }

  predicate Sets<V>(e: Option<(string, V)>, key: string) {
    e.Some? && e.value.0 == key
  }

  /** Writing the entries into a map in order, as `obj[key] = value` or `map.set` in a loop does. */
  function Fold<V>(es: seq<Option<(string, V)>>): map<string, V>
    decreases |es|
  {
    if es == [] then map[] else Put(Fold(es[..|es| - 1]), es[|es| - 1])
  }

  lemma {:induction false} FoldKeys<V>(es: seq<Option<(string, V)>>, key: string)
    ensures key in Fold(es) <==> exists i :: 0 <= i < |es| && Sets(es[i], key)
    decreases |es|
  {
    if es != [] {
      var init := es[..|es| - 1];
      FoldKeys(init, key);
      if !Sets(es[|es| - 1], key) {
        if exists i :: 0 <= i < |es| && Sets(es[i], key) {
          var i :| 0 <= i < |es| && Sets(es[i], key);
          assert es[i] == init[i];
        }
        if exists i :: 0 <= i < |init| && Sets(init[i], key) {
          var i :| 0 <= i < |init| && Sets(init[i], key);
          assert es[i] == init[i];
        }
      }
    }
  }

  lemma {:induction false} FoldLastWins<V>(es: seq<Option<(string, V)>>, i: int, key: string)
    requires 0 <= i < |es| && Sets(es[i], key)
    requires forall j :: i < j < |es| ==> !Sets(es[j], key)
    ensures key in Fold(es) && Fold(es)[key] == es[i].value.1
    decreases |es|
  {
    var init := es[..|es| - 1];
    if i < |es| - 1 {
      forall j | i < j < |init| ensures !Sets(init[j], key) {
        assert init[j] == es[j];
      }
      assert init[i] == es[i];
      FoldLastWins(init, i, key);
    }
  }

  /**
   * On a plain `{}` object, `obj['__proto__'] = value` goes to the accessor inherited
   * from `Object.prototype`, which ignores a value that is not an object: no own key
   * is created. Every other string key is an ordinary own property.
   */
  const ProtoKey := "__proto__"

  /** The write a `{}` object keeps: a string written to `__proto__` is dropped. */
  function ObjectWrite<V>(e: Option<(string, V)>): (r: Option<(string, V)>)
    ensures forall key :: Sets(r, key) <==> key != ProtoKey && Sets(e, key)
    ensures r.Some? ==> r == e
  {
    if e.Some? && e.value.0 == ProtoKey then None else e
  }

  function ObjectWrites<V>(es: seq<Option<(string, V)>>): (r: seq<Option<(string, V)>>)
    ensures |r| == |es|
    ensures forall i :: 0 <= i < |es| ==> r[i] == ObjectWrite(es[i])
  {
    seq(|es|, i requires 0 <= i < |es| => ObjectWrite(es[i]))
  }

  /** `obj[key] = value` in a loop over a `{}` object. */
  function ObjectFold<V>(es: seq<Option<(string, V)>>): map<string, V> {
    Fold(ObjectWrites(es))
  }

  /** A key is an own key of the object exactly when it is not `__proto__` and some entry writes it. */
  lemma ObjectFoldKeys<V>(es: seq<Option<(string, V)>>, key: string)
    ensures key in ObjectFold(es) <==> key != ProtoKey && exists i :: 0 <= i < |es| && Sets(es[i], key)
  {
    var ws := ObjectWrites(es);
    FoldKeys(ws, key);
    if key != ProtoKey && exists i :: 0 <= i < |es| && Sets(es[i], key) {
      var i :| 0 <= i < |es| && Sets(es[i], key);
      assert Sets(ws[i], key);
    }
  }

  /** For any key but `__proto__`, the last write wins as in a map. */
  lemma ObjectFoldLastWins<V>(es: seq<Option<(string, V)>>, i: int, key: string)
    requires key != ProtoKey
    requires 0 <= i < |es| && Sets(es[i], key)
    requires forall j :: i < j < |es| ==> !Sets(es[j], key)
    ensures key in ObjectFold(es) && ObjectFold(es)[key] == es[i].value.1
  {
    var ws := ObjectWrites(es);
    assert forall j :: i < j < |ws| ==> !Sets(ws[j], key);
    assert Sets(ws[i], key) && ws[i] == es[i];
    FoldLastWins(ws, i, key);
  }

  /** The keys in the order they were first written, as `Object.keys` lists string keys. */
  function InsertionOrder<V>(es: seq<Option<(string, V)>>): (r: seq<string>)
    ensures forall k :: k in r <==> k in Fold(es)
    ensures forall i, j :: 0 <= i < j < |r| ==> r[i] != r[j]
    ensures |r| == |Fold(es)|
    decreases |es|
  {
    if es == [] then []
    else
      var keys := InsertionOrder(es[..|es| - 1]);
      match es[|es| - 1]
      case None => keys
      case Some(kv) => if kv.0 in keys then keys else keys + [kv.0]
  }
}
