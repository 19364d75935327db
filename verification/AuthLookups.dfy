/** Which user or group an identifier stands for. */
module AuthLookups {
  import opened Text
  import opened KeyOrder
  import opened Naming
  import opened AuthStore

  /** The identifier spells out the key. */
  predicate Spells(id: string, k: Key) { ':' !in k.namespace && id == k.namespace + ":" + k.name }

  lemma SpelledExactly(id: string, k: Key)
    ensures SpelledKey(id) == Some(k) <==> Spells(id, k)
  {
    var n := FirstColon(id);
    if SpelledKey(id) == Some(k) {
      assert id == id[..n] + ":" + id[n + 1..];
    }
    if Spells(id, k) {
      assert id[|k.namespace|] == ':';
      assert forall i :: 0 <= i < |k.namespace| ==> id[i] == k.namespace[i];
      assert id[..n] == k.namespace && id[n + 1..] == k.name;
    }
  }

  /** The one name an object goes by outside the cluster: its external id, or else its key spelled out if it has a namespace. */
  predicate GoesBy(k: Key, externalId: string, name: string) {
    (externalId != "" ==> name == externalId) &&
    (externalId == "" && k.namespace != "" ==> name == k.namespace + ":" + k.name) &&
    (externalId == "" && k.namespace == "" ==> name == k.name)
  }

  /** The ways to go by an identifier, best first: as external id, as the spelled key, as the public name or the object's own. */
  datatype Way = ById | BySpelling | ByName | Not

  function WayOf(k: Key, externalId: string, id: string, ownName: bool): Way {
    if id != "" && externalId == id then ById
    else if Spells(id, k) then BySpelling
    else if ownName || (externalId == "" && id == k.namespace + ":" + k.name) then ByName
    else Not
  }

  function Rank(w: Way): nat { match w case ById => 0 case BySpelling => 1 case ByName => 2 case Not => 3 }

  function UserWay(s: Store, k: Key, id: string): Way
    requires k in s.users
  {
    WayOf(k, s.users[k].externalId, id, k.name == id)
  }

  function GroupWay(s: Store, k: Key, id: string): Way
    requires k in s.groups
  {
    WayOf(k, s.groups[k].externalId, id, k.name == id || k.name == ObjectName("group-" + id))
  }

  /** The best of all users that go by the identifier: by the way they do, then by key. */
  predicate BestUser(s: Store, k: Key, id: string) {
    k in s.users && !UserWay(s, k, id).Not? &&
    forall l :: l in s.users && !UserWay(s, l, id).Not? ==>
      l == k || Rank(UserWay(s, k, id)) < Rank(UserWay(s, l, id)) ||
      (Rank(UserWay(s, k, id)) == Rank(UserWay(s, l, id)) && KeyBefore(k, l))
  }

  lemma UserSets(s: Store, k: Key, id: string)
    requires k in s.users
    ensures UserWay(s, k, id).ById? <==> k in IndexedUsers(s, id)
    ensures !UserWay(s, k, id).ById? ==> (UserWay(s, k, id).BySpelling? <==> SpelledKey(id) == Some(k))
    ensures !UserWay(s, k, id).Not? <==> k in IndexedUsers(s, id) || SpelledKey(id) == Some(k) || k in NamedUsers(s, id)
  {
    SpelledExactly(id, k);
  }

  /** A user is found exactly if one goes by the identifier, and then the best of them. */
  lemma ResolveUserFindsBest(s: Store, id: string)
    ensures ResolveUser(s, id).Some? ==> BestUser(s, ResolveUser(s, id).value, id)
    ensures ResolveUser(s, id).None? ==> forall k :: k in s.users ==> UserWay(s, k, id).Not?
  {
    var r := ResolveUser(s, id);
    forall k | k in s.users
      ensures UserWay(s, k, id).ById? <==> k in IndexedUsers(s, id)
      ensures !UserWay(s, k, id).ById? ==> (UserWay(s, k, id).BySpelling? <==> SpelledKey(id) == Some(k))
      ensures !UserWay(s, k, id).Not? <==> k in IndexedUsers(s, id) || SpelledKey(id) == Some(k) || k in NamedUsers(s, id)
    {
      UserSets(s, k, id);
    }
    if r.Some? {
      var k := r.value;
      forall l | l in s.users && !UserWay(s, l, id).Not? && l != k
        ensures Rank(UserWay(s, k, id)) < Rank(UserWay(s, l, id)) ||
                (Rank(UserWay(s, k, id)) == Rank(UserWay(s, l, id)) && KeyBefore(k, l))
      {
        KeyBeforeTotal(k, l);
      }
    }
  }

  predicate BestGroup(s: Store, k: Key, id: string) {
    k in s.groups && !GroupWay(s, k, id).Not? &&
    forall l :: l in s.groups && !GroupWay(s, l, id).Not? ==>
      l == k || Rank(GroupWay(s, k, id)) < Rank(GroupWay(s, l, id)) ||
      (Rank(GroupWay(s, k, id)) == Rank(GroupWay(s, l, id)) && KeyBefore(k, l))
  }

  lemma GroupSets(s: Store, k: Key, id: string)
    requires k in s.groups
    ensures GroupWay(s, k, id).ById? <==> k in IndexedGroups(s, id)
    ensures !GroupWay(s, k, id).ById? ==> (GroupWay(s, k, id).BySpelling? <==> SpelledKey(id) == Some(k))
    ensures !GroupWay(s, k, id).Not? <==> k in IndexedGroups(s, id) || SpelledKey(id) == Some(k) || k in NamedGroups(s, id)
  {
    SpelledExactly(id, k);
  }

  /** The same for groups, which also go by the name of the object made for the identifier. */
  lemma ResolveGroupFindsBest(s: Store, id: string)
    ensures ResolveGroup(s, id).Some? ==> BestGroup(s, ResolveGroup(s, id).value, id)
    ensures ResolveGroup(s, id).None? ==> forall k :: k in s.groups ==> GroupWay(s, k, id).Not?
  {
    var r := ResolveGroup(s, id);
    forall k | k in s.groups
      ensures GroupWay(s, k, id).ById? <==> k in IndexedGroups(s, id)
      ensures !GroupWay(s, k, id).ById? ==> (GroupWay(s, k, id).BySpelling? <==> SpelledKey(id) == Some(k))
      ensures !GroupWay(s, k, id).Not? <==> k in IndexedGroups(s, id) || SpelledKey(id) == Some(k) || k in NamedGroups(s, id)
    {
      GroupSets(s, k, id);
    }
    if r.Some? {
      var k := r.value;
      forall l | l in s.groups && !GroupWay(s, l, id).Not? && l != k
        ensures Rank(GroupWay(s, k, id)) < Rank(GroupWay(s, l, id)) ||
                (Rank(GroupWay(s, k, id)) == Rank(GroupWay(s, l, id)) && KeyBefore(k, l))
      {
        KeyBeforeTotal(k, l);
      }
    }
  }
}
