/**
  The "extra" section of a package manifest, as the builder sees it: PHP
  values that are strings, arrays (ordered key/value entries; a list is an
  array whose keys are "0", "1", ...) or anything else.
 */
module Config {
  import opened Wrappers

  datatype Value = Str(s: string) | Arr(entries: seq<Entry>) | Other
  datatype Entry = Entry(key: string, value: Value)

  /** A PHP array never holds the same key twice. */
  ghost predicate UniqueKeys(es: seq<Entry>)
  {
    forall i, j :: 0 <= i < j < |es| ==> es[i].key != es[j].key
  }

  /** The value stored under `key`. */
  function Lookup(es: seq<Entry>, key: string): (r: Option<Value>)
    ensures r.None? <==> forall i :: 0 <= i < |es| ==> es[i].key != key
    ensures r.Some? ==> exists i :: 0 <= i < |es| && es[i].key == key && es[i].value == r.value
  {
    if es == [] then None
    else if es[0].key == key then Some(es[0].value)
    else Lookup(es[1..], key)
  }

  /** With unique keys, the value found is the one of the entry holding the key. */
  lemma {:induction false} LookupUnique(es: seq<Entry>, i: int)
    requires UniqueKeys(es) && 0 <= i < |es|
    ensures Lookup(es, es[i].key) == Some(es[i].value)
  {
    if i > 0 {
      assert es[0].key != es[i].key;
      assert UniqueKeys(es[1..]) by {
        forall a, b | 0 <= a < b < |es| - 1
          ensures es[1..][a].key != es[1..][b].key
        {
          assert es[a + 1].key != es[b + 1].key;
        }
      }
      LookupUnique(es[1..], i - 1);
    }
  }

  /** The array without the entries under `key`. */
  function Without(es: seq<Entry>, key: string): (r: seq<Entry>)
    ensures forall e :: e in r <==> e in es && e.key != key
  {
    if es == [] then []
    else (if es[0].key == key then [] else [es[0]]) + Without(es[1..], key)
  }

  /** Removing one key leaves every other key's value as it was. */
  lemma {:induction false} LookupWithout(es: seq<Entry>, key: string, other: string)
    requires other != key
    ensures Lookup(Without(es, key), other) == Lookup(es, other)
  {
    if es != [] {
      LookupWithout(es[1..], key, other);
      if es[0].key == key {
        assert Without(es, key) == Without(es[1..], key);
      } else {
        assert Without(es, key) == [es[0]] + Without(es[1..], key);
        assert ([es[0]] + Without(es[1..], key))[1..] == Without(es[1..], key);
      }
    }
  }

  /** The values of an array of strings, in order, or None if one is not a string. */
  function Strings(es: seq<Entry>): (r: Option<seq<string>>)
    ensures r.Some? <==> forall i :: 0 <= i < |es| ==> es[i].value.Str?
    ensures r.Some? ==> |r.value| == |es| && forall i :: 0 <= i < |es| ==> r.value[i] == es[i].value.s
  {
    if es == [] then Some([])
    else
      var rest := Strings(es[1..]);
      if es[0].value.Str? && rest.Some? then Some([es[0].value.s] + rest.value) else None
  }

  /** A string, read as a one-element list, or an array of strings. */
  function StringOrList(v: Value): (r: Option<seq<string>>)
    ensures r.Some? <==> v.Str? || (v.Arr? && forall i :: 0 <= i < |v.entries| ==> v.entries[i].value.Str?)
    ensures v.Str? ==> r == Some([v.s])
    ensures v.Arr? && r.Some? ==> r == Strings(v.entries)
  {
    match v
    case Str(s) => Some([s])
    case Arr(es) => Strings(es)
    case Other => None
  }
}
