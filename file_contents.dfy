/**
 * A path -> text map as the snapshot code uses it (a LinkedHashMap: keys
 * unique, iteration in insertion order), represented as a sequence of entries.
 */
module FileContents {
  import opened Wrappers

  type Path = string
  type Text = string

  datatype Entry = Entry(path: Path, text: Text)

  /** The map invariant: no path is a key twice. */
  predicate DistinctKeys(s: seq<Entry>) {
    forall i, j :: 0 <= i < j < |s| ==> s[i].path != s[j].path
  }

  function Keys(s: seq<Entry>): set<Path> {
    set e | e in s :: e.path
  }

  /** Map.get: the text stored under `key`, if any. */
  function Lookup(s: seq<Entry>, key: Path): (r: Option<Text>)
    ensures r.Some? <==> key in Keys(s)
    ensures r.Some? ==> Entry(key, r.value) in s
    ensures DistinctKeys(s) ==> forall t :: Entry(key, t) in s ==> r == Some(t)
  {
    if s == [] then None
    else if s[0].path == key then Some(s[0].text)
    else
      var r := Lookup(s[1..], key);
      assert forall e :: e in s[1..] ==> e in s;
      assert forall e :: e in s && e != s[0] ==> e in s[1..];
      r
  }

  /**
   * Map.put on an insertion-ordered map: an existing key keeps its place and
   * gets the new text, a new key is appended.
   */
  function Put(s: seq<Entry>, key: Path, text: Text): (r: seq<Entry>)
    ensures Keys(r) == Keys(s) + {key}
    ensures key !in Keys(s) ==> r == s + [Entry(key, text)]
  {
    if s == [] then [Entry(key, text)]
    else
      KeysCons(s[0], s[1..]);
      assert s == [s[0]] + s[1..];
      if s[0].path == key then
        KeysCons(Entry(key, text), s[1..]);
        [Entry(key, text)] + s[1..]
      else
        var rest := Put(s[1..], key, text);
        KeysCons(s[0], rest);
        assert key !in Keys(s) ==> [s[0]] + rest == [s[0]] + (s[1..] + [Entry(key, text)]);
        [s[0]] + rest
  }

  /** The keys of an entry followed by more entries. */
  lemma KeysCons(e: Entry, t: seq<Entry>)
    ensures Keys([e] + t) == {e.path} + Keys(t)
  {
    assert forall x :: x in [e] + t <==> x == e || x in t;
  }

  /** After a put, `key` maps to the new text and every other key is unaffected. */
  lemma {:induction false} PutLookup(s: seq<Entry>, key: Path, text: Text)
    ensures Lookup(Put(s, key, text), key) == Some(text)
    ensures forall k :: k != key ==> Lookup(Put(s, key, text), k) == Lookup(s, k)
  {
    if s != [] && s[0].path != key {
      PutLookup(s[1..], key, text);
    }
  }

  /** A put keeps the keys distinct. */
  lemma {:induction false} PutDistinct(s: seq<Entry>, key: Path, text: Text)
    requires DistinctKeys(s)
    ensures DistinctKeys(Put(s, key, text))
  {
    if s != [] {
      DistinctCons(s);
      if s[0].path != key {
        PutDistinct(s[1..], key, text);
        ConsDistinct(s[0], Put(s[1..], key, text));
      } else {
        ConsDistinct(Entry(key, text), s[1..]);
      }
    }
  }

  /** The head's key of a map is not among the keys of its tail, which is a map too. */
  lemma DistinctCons(s: seq<Entry>)
    requires DistinctKeys(s) && s != []
    ensures DistinctKeys(s[1..]) && s[0].path !in Keys(s[1..])
  {
    forall e | e in s[1..] ensures e.path != s[0].path {
      var j :| 0 <= j < |s[1..]| && s[1..][j] == e;
      assert s[j + 1] == e;
    }
  }

  /** An entry whose key is new, followed by a map, is a map. */
  lemma ConsDistinct(e: Entry, t: seq<Entry>)
    requires DistinctKeys(t) && e.path !in Keys(t)
    ensures DistinctKeys([e] + t)
  {
    forall j | 0 <= j < |t| ensures t[j].path != e.path {
      assert t[j] in t;
    }
  }

  /**
   * keySet().removeAll(keys): the entries whose path is not in `keys`, in
   * their original order and with their original text.
   */
  function RemoveKeys(s: seq<Entry>, keys: set<Path>): (r: seq<Entry>)
    ensures forall e :: e in r <==> e in s && e.path !in keys
    ensures Keys(r) == Keys(s) - keys
    ensures |r| <= |s|
    ensures DistinctKeys(s) ==> DistinctKeys(r)
    ensures DistinctKeys(s) ==> forall k :: k !in keys ==> Lookup(r, k) == Lookup(s, k)
  {
    if s == [] then []
    else
      var rest := RemoveKeys(s[1..], keys);
      assert forall e :: e in s <==> e == s[0] || e in s[1..];
      assert DistinctKeys(s) ==> s[0].path !in Keys(s[1..]);
      if s[0].path in keys then rest else [s[0]] + rest
  }
}
