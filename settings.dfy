/**
 * Interface settings: a JavaScript object used as an ordered dictionary.
 * Object keys keep their insertion order, and assigning to an existing key
 * overwrites its value without moving it.
 */
module Settings {
  import opened Wrappers
  import opened Strings

  /** A setting's value: one word, a word list, or a JavaScript `null`/`undefined`. */
  datatype Value = Scalar(text: string) | List(items: seq<string>) | Null | Undefined

  /** An object's own properties, in insertion order. */
  type Settings = seq<(string, Value)>

  /** No key occurs twice (true of every JavaScript object). */
  predicate UniqueKeys(m: Settings)
  {
    forall i, j :: 0 <= i < j < |m| ==> m[i].0 != m[j].0
  }

  /** `k in obj` */
  predicate HasKey(m: Settings, k: string)
  {
    exists i :: 0 <= i < |m| && m[i].0 == k
  }

  /** `obj[k]`, or None when the key is absent. */
  function Lookup(m: Settings, k: string): (r: Option<Value>)
    ensures r.Some? <==> HasKey(m, k)
  {
    if |m| == 0 then None
    else if m[0].0 == k then Some(m[0].1)
    else
      HasKeyTail(m, k);
      Lookup(m[1..], k)
  }

  /** Past a first entry with another key, the key is present iff it is in the rest. */
  lemma HasKeyTail(m: Settings, k: string)
    requires |m| > 0 && m[0].0 != k
    ensures HasKey(m, k) <==> HasKey(m[1..], k)
  {
    if HasKey(m, k) {
      var i :| 0 <= i < |m| && m[i].0 == k;
      assert m[1..][i - 1].0 == k;
    }
    if HasKey(m[1..], k) {
      var i :| 0 <= i < |m[1..]| && m[1..][i].0 == k;
      assert m[i + 1].0 == k;
    }
  }

  /** `obj[k] = v`: an existing key keeps its place, a new key goes last. */
  function Put(m: Settings, k: string, v: Value): (r: Settings)
    ensures !HasKey(m, k) ==> r == m + [(k, v)]
    ensures HasKey(m, k) ==> |r| == |m| && forall i :: 0 <= i < |m| ==> r[i].0 == m[i].0
  {
    if |m| == 0 then [(k, v)]
    else if m[0].0 == k then
      assert HasKey(m, k);
      [(k, v)] + m[1..]
    else
      HasKeyTail(m, k);
      var t := Put(m[1..], k, v);
      assert ([m[0]] + t)[1..] == t;
      [m[0]] + t
  }

  /** After `obj[k] = v`, reading `k` gives `v` and every other key reads as before. */
  lemma {:induction false} PutLookup(m: Settings, k: string, v: Value, k': string)
    ensures Lookup(Put(m, k, v), k') == if k' == k then Some(v) else Lookup(m, k')
    decreases |m|
  {
    if |m| > 0 && m[0].0 != k {
      var t := Put(m[1..], k, v);
      assert Put(m, k, v) == [m[0]] + t;
      assert ([m[0]] + t)[1..] == t;
      PutLookup(m[1..], k, v, k');
    }
  }

  /** Assignment keeps an object's keys unique. */
  lemma PutUnique(m: Settings, k: string, v: Value)
    requires UniqueKeys(m)
    ensures UniqueKeys(Put(m, k, v))
  {
    var r := Put(m, k, v);
    if !HasKey(m, k) {
      forall i, j | 0 <= i < j < |r| ensures r[i].0 != r[j].0 {
        if j == |m| {
          assert r[i] == m[i];
        }
      }
    }
  }

  /** JavaScript falsiness of a value: `null`, `undefined` and the empty string. */
  predicate Falsy(v: Value)
  {
    v == Null || v == Undefined || v == Scalar("")
  }

  /** The value as a template literal shows it (`${value}`); arrays join with commas. */
  function Show(v: Value): string
  {
    match v
    case Scalar(s) => s
    case List(items) => Join(items, ",")
    case Null => "null"
    case Undefined => "undefined"
  }
}
