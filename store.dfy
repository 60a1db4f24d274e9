/** The single key-value table every server route shares. An item lives under
    the composite key (UserId, EntityId); the entity identifier tells the
    record kinds of one user apart: "USER#Profile", "BOOK#<ms>" and
    "SETTINGS#<user>". The store's Get, Put, Delete and prefix Query are
    modelled as operations on a finite map. */
module Store {
  import opened Common
  import opened Json

  datatype Key = Key(user: string, entity: string)

  type Item = Object

  const ProfileEntity: string := "USER#Profile"
  const UserPrefix: string := "USER#"
  const BookPrefix: string := "BOOK#"
  const SettingsPrefix: string := "SETTINGS#"

  /** The settings record of a user is keyed (userId, "SETTINGS#" + userId). */
  function SettingsKey(userId: string): (k: Key)
    ensures k.user == userId && StartsWith(k.entity, SettingsPrefix)
    ensures k.entity[|SettingsPrefix|..] == userId
  {
    Key(userId, SettingsPrefix + userId)
  }

  function ProfileKey(userId: string): Key {
    Key(userId, ProfileEntity)
  }

  /** The key attributes of an item, as the store keeps them. */
  function KeyAttributes(k: Key): Item {
    map["UserId" := Str(k.user), "EntityId" := Str(k.entity)]
  }

  /** The document client's conversion of an item before a PutCommand. The
      client is built without marshalling options (server/db.js:16), so an
      undefined attribute is not dropped: it makes the command throw, which
      is `None`. */
  function Marshal(d: Draft): (r: Option<Item>)
    ensures r.Some? <==> forall a :: a in d ==> d[a].Some?
    ensures r.Some? ==> r.value.Keys == d.Keys && forall a :: a in d ==> d[a] == Some(r.value[a])
  {
    if forall a :: a in d ==> d[a].Some? then Some(map a | a in d :: d[a].value) else None
  }

  /** A draft whose attributes are all defined is sent as the item it
      spells out, and that item is the only one it can be. */
  lemma MarshalDefined(item: Item, d: Draft)
    requires d.Keys == item.Keys && forall a :: a in d ==> d[a] == Some(item[a])
    ensures Marshal(d) == Some(item)
  {
    assert Marshal(d).value == item;
  }

  /** An item carries its own key as its UserId and EntityId attributes. */
  predicate HasKey(item: Item, k: Key) {
    && "UserId" in item && item["UserId"] == Str(k.user)
    && "EntityId" in item && item["EntityId"] == Str(k.entity)
  }

  /** Every item of the table carries the key it is stored under. */
  predicate WellKeyed(items: map<Key, Item>) {
    forall k :: k in items ==> HasKey(items[k], k)
  }

  /** `order` lists every key of the table exactly once: the order in which
      the store enumerates the table. */
  predicate Listing(order: seq<Key>, items: map<Key, Item>) {
    && (forall i, j :: 0 <= i < j < |order| ==> order[i] != order[j])
    && (forall k :: k in order ==> k in items)
    && (forall k :: k in items ==> k in order)
  }

  /** The keys a Query `UserId = :uid AND begins_with(EntityId, :prefix)`
      visits, in listing order. */
  function QueryKeys(order: seq<Key>, user: string, prefix: string): (ks: seq<Key>)
    ensures forall k :: k in ks <==> k in order && k.user == user && StartsWith(k.entity, prefix)
  {
    var keep := (k: Key) => k.user == user && StartsWith(k.entity, prefix);
    FilterMembers(order, keep);
    Filter(order, keep)
  }

  /** The items such a Query returns. */
  function Query(items: map<Key, Item>, order: seq<Key>, user: string, prefix: string): (r: seq<Item>)
    requires Listing(order, items)
    ensures |r| == |QueryKeys(order, user, prefix)|
    ensures forall i :: 0 <= i < |r| ==> r[i] == items[QueryKeys(order, user, prefix)[i]]
  {
    var ks := QueryKeys(order, user, prefix);
    seq(|ks|, i requires 0 <= i < |ks| => items[ks[i]])
  }

  /** A Query returns exactly the user's items under the prefix, each once. */
  lemma QueryExact(items: map<Key, Item>, order: seq<Key>, user: string, prefix: string)
    requires Listing(order, items)
    ensures var ks := QueryKeys(order, user, prefix);
            && (forall k :: k in ks <==> k in items && k.user == user && StartsWith(k.entity, prefix))
            && (forall i, j :: 0 <= i < j < |ks| ==> ks[i] != ks[j])
  {
    var keep := (k: Key) => k.user == user && StartsWith(k.entity, prefix);
    FilterMembers(order, keep);
    FilterIsSubsequence(order, keep);
    SubsequenceDistinct(QueryKeys(order, user, prefix), order);
  }

  /** A subsequence of a sequence without repetitions has none either. */
  lemma {:induction false} SubsequenceDistinct<T>(a: seq<T>, b: seq<T>)
    requires IsSubsequence(a, b)
    requires forall i, j :: 0 <= i < j < |b| ==> b[i] != b[j]
    ensures forall i, j :: 0 <= i < j < |a| ==> a[i] != a[j]
    decreases |b|
  {
    if a != [] {
      assert b != [];
      if a[0] == b[0] {
        SubsequenceDistinct(a[1..], b[1..]);
        SubsequenceMembers(a[1..], b[1..]);
        forall j | 0 < j < |a| ensures a[0] != a[j] {
          assert a[j] == a[1..][j - 1];
          assert a[j] in a[1..];
          assert a[j] in b[1..];
          var m :| 0 <= m < |b[1..]| && b[1..][m] == a[j];
          assert b[m + 1] == a[j];
        }
        forall i, j | 0 <= i < j < |a| ensures a[i] != a[j] {
          if i > 0 { assert a[i] == a[1..][i - 1] && a[j] == a[1..][j - 1]; }
        }
      } else {
        SubsequenceDistinct(a, b[1..]);
      }
    }
  }

  lemma {:induction false} SubsequenceMembers<T>(a: seq<T>, b: seq<T>)
    requires IsSubsequence(a, b)
    ensures forall x :: x in a ==> x in b
    decreases |b|
  {
    if a != [] {
      if a[0] == b[0] {
        SubsequenceMembers(a[1..], b[1..]);
        forall x | x in a ensures x in b {
          if x != a[0] { assert x in a[1..]; }
        }
      } else {
        SubsequenceMembers(a, b[1..]);
      }
    }
  }

  /** The shared table. Its methods are the store commands the routes send. */
  class Table {
    var items: map<Key, Item>

    ghost predicate Valid()
      reads this
    {
      WellKeyed(items)
    }

    constructor ()
      ensures Valid() && items == map[]
    {
      items := map[];
    }

    /** GetCommand: the item under the key, if any. */
    method Get(k: Key) returns (item: Option<Item>)
      ensures item.Some? <==> k in items
      ensures item.Some? ==> item.value == items[k]
    {
      item := if k in items then Some(items[k]) else None;
    }

    /** PutCommand: the item replaces whatever was stored under its key. */
    method Put(k: Key, item: Item)
      requires Valid() && HasKey(item, k)
      modifies this
      ensures Valid()
      ensures items == old(items)[k := item]
    {
      items := items[k := item];
    }

    /** DeleteCommand: removes the key; deleting a missing key is no error. */
    method Delete(k: Key)
      requires Valid()
      modifies this
      ensures Valid()
      ensures items == old(items) - {k}
    {
      items := items - {k};
    }
  }
}
