// Iterating over the keys of a key-value store, in their byte order or backwards.
module KeyIteration {
  import opened Common

  /** A key, as its bytes. */
  type Key = seq<nat>

  /** An iterator, running backwards or not, visits a before b. */
  predicate Before(reverse: bool, a: Key, b: Key) {
    if reverse then LexLess(b, a) else LexLess(a, b)
  }

  ghost predicate IsFirst(reverse: bool, keys: set<Key>, k: Key) {
    k in keys && forall j <- keys :: j == k || Before(reverse, k, j)
  }

  lemma {:induction false} FirstExists(reverse: bool, keys: set<Key>)
    requires keys != {}
    ensures exists k :: IsFirst(reverse, keys, k)
  {
    var x :| x in keys;
    var rest := keys - {x};
    assert keys == rest + {x};
    if rest == {} {
      assert IsFirst(reverse, keys, x);
    } else {
      FirstExists(reverse, rest);
      var y :| IsFirst(reverse, rest, y);
      LexTotal(x, y);
      if Before(reverse, y, x) {
        assert IsFirst(reverse, keys, y);
      } else {
        forall j <- keys ensures j == x || Before(reverse, x, j) {
          if j != x && j != y {
            BeforeTransitive(reverse, x, y, j);
          }
        }
        assert IsFirst(reverse, keys, x);
      }
    }
  }

  lemma BeforeTransitive(reverse: bool, a: Key, b: Key, c: Key)
    requires Before(reverse, a, b) && Before(reverse, b, c)
    ensures Before(reverse, a, c) && a != c
  {
    if reverse {
      LexTransitive(c, b, a);
    } else {
      LexTransitive(a, b, c);
    }
    LexIrreflexive(a);
  }

  lemma FirstUnique(reverse: bool, keys: set<Key>, k: Key, l: Key)
    requires IsFirst(reverse, keys, k) && IsFirst(reverse, keys, l)
    ensures k == l
  {
    if k != l {
      BeforeTransitive(reverse, k, l, k);
    }
  }

  /** The keys of a store from the least to the greatest. */
  ghost function KeysInOrder(keys: set<Key>): (r: seq<Key>)
    ensures forall k :: k in r <==> k in keys
  {
    if keys == {} then []
    else
      FirstExists(false, keys);
      var k :| IsFirst(false, keys, k);
      [k] + KeysInOrder(keys - {k})
  }

  lemma KeysInOrderStartsWith(keys: set<Key>, k: Key)
    requires IsFirst(false, keys, k)
    ensures KeysInOrder(keys) == [k] + KeysInOrder(keys - {k})
  {
    FirstExists(false, keys);
    var l :| IsFirst(false, keys, l) && KeysInOrder(keys) == [l] + KeysInOrder(keys - {l});
    FirstUnique(false, keys, k, l);
  }

  ghost predicate Distinct<T>(s: seq<T>) {
    forall i, j | 0 <= i < j < |s| :: s[i] != s[j]
  }

  lemma {:induction false} KeysInOrderAscend(keys: set<Key>)
    ensures Distinct(KeysInOrder(keys)) && InOrderOf(false, KeysInOrder(keys))
  {
    if keys != {} {
      FirstExists(false, keys);
      var k :| IsFirst(false, keys, k) && KeysInOrder(keys) == [k] + KeysInOrder(keys - {k});
      KeysInOrderAscend(keys - {k});
    }
  }

  // ----- Iterators over a store that is written to on the way -----

  /** The keys that an iterator standing at the given key, or not yet started, has still to visit. */
  function KeysAhead(reverse: bool, keys: set<Key>, at: Option<Key>): set<Key> {
    set j | j in keys && (at.Some? ==> Before(reverse, at.value, j))
  }

  /** The next key of an iterator, found among the keys that the store has by then. */
  method NextKey(reverse: bool, keys: set<Key>, at: Option<Key>) returns (k: Option<Key>)
    ensures k.None? ==> KeysAhead(reverse, keys, at) == {}
    ensures k.Some? ==> IsFirst(reverse, KeysAhead(reverse, keys, at), k.value)
  {
    var ahead := KeysAhead(reverse, keys, at);
    if ahead == {} {
      return None;
    }
    FirstExists(reverse, ahead);
    var x :| x in ahead && forall j <- ahead :: x == j || Before(reverse, x, j);
    return Some(x);
  }

  /** An iterator under way: it has visited, in order and each once, the keys that are not left;
      those left come after them, and the iterator stands at the first of these. */
  ghost predicate UnderWay(reverse: bool, keys: set<Key>, left: set<Key>, cursor: Option<Key>, visits: seq<Key>) {
    && left <= keys
    && (if cursor.Some? then IsFirst(reverse, left, cursor.value) else left == {})
    && (forall a <- keys, b <- left | a !in left :: Before(reverse, a, b))
    && (forall a :: a in visits <==> a in keys && a !in left)
    && InOrderOf(reverse, visits)
  }

  ghost predicate InOrderOf(reverse: bool, visits: seq<Key>) {
    forall i, j | 0 <= i < j < |visits| :: Before(reverse, visits[i], visits[j])
  }

  /** visits are all the keys, in the order of the iterator, each once. */
  ghost predicate VisitsAll(reverse: bool, keys: set<Key>, visits: seq<Key>) {
    (forall a :: a in visits <==> a in keys) && InOrderOf(reverse, visits) && Distinct(visits)
  }

  lemma Finished(reverse: bool, keys: set<Key>, visits: seq<Key>)
    requires UnderWay(reverse, keys, {}, None, visits)
    ensures VisitsAll(reverse, keys, visits)
  {
    forall i, j | 0 <= i < j < |visits| ensures visits[i] != visits[j] {
      LexIrreflexive(visits[i]);
    }
  }

  /** Past the key at which it stands, the iterator finds exactly those left after it. */
  lemma KeysAheadAreLeft(reverse: bool, keys: set<Key>, left: set<Key>, visits: seq<Key>, k: Key)
    requires UnderWay(reverse, keys, left, Some(k), visits)
    ensures KeysAhead(reverse, keys, Some(k)) == left - {k}
  {
    LexIrreflexive(k);
    forall a <- keys | a !in left ensures !Before(reverse, k, a) {
      if Before(reverse, k, a) {
        BeforeTransitive(reverse, k, a, k);
      }
    }
  }

  method Start(reverse: bool, keys: set<Key>) returns (cursor: Option<Key>)
    ensures UnderWay(reverse, keys, keys, cursor, [])
  {
    cursor := NextKey(reverse, keys, None);
    assert KeysAhead(reverse, keys, None) == keys;
  }

  /** A step of an iterator that stands at k, over a store with the same keys as at its start. */
  method Advance(reverse: bool, keys: set<Key>, k: Key, ghost left: set<Key>, ghost visits: seq<Key>)
    returns (cursor: Option<Key>)
    requires UnderWay(reverse, keys, left, Some(k), visits)
    ensures UnderWay(reverse, keys, left - {k}, cursor, visits + [k])
  {
    KeysAheadAreLeft(reverse, keys, left, visits, k);
    cursor := NextKey(reverse, keys, Some(k));
  }

  /** The keys that an ascending iterator yields over a store that stays as it is. */
  method AscendingKeys(keys: set<Key>) returns (r: seq<Key>)
    ensures r == KeysInOrder(keys)
  {
    r := [];
    var rest := keys;
    while rest != {}
      invariant r + KeysInOrder(rest) == KeysInOrder(keys)
      decreases rest
    {
      var k := NextKey(false, rest, None);
      assert KeysAhead(false, rest, None) == rest;
      KeysInOrderStartsWith(rest, k.value);
      assert r + KeysInOrder(rest) == (r + [k.value]) + KeysInOrder(rest - {k.value});
      r := r + [k.value];
      rest := rest - {k.value};
    }
  }
}
