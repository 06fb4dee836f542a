/** The favorites list: named coordinate bookmarks, looked up and toggled by
    name. The list lives in memory only; persisting it and redrawing it after a
    toggle are not part of this model. */
module Favorites {

  datatype Favorite = Favorite(name: string, lat: real, lon: real)

  /** Whether some entry of the list carries the given name, scanning from the
      front and stopping at the first match. */
  function HasName(list: seq<Favorite>, name: string): (r: bool)
    ensures r <==> exists i :: 0 <= i < |list| && list[i].name == name
  {
    if list == [] then false
    else list[0].name == name || HasName(list[1..], name)
  }

  /** The entries whose name differs from `name`, in their original order. */
  function WithoutName(list: seq<Favorite>, name: string): (r: seq<Favorite>)
    ensures !HasName(r, name)
    ensures forall f :: f in r ==> f in list
  {
    if list == [] then []
    else if list[0].name != name then [list[0]] + WithoutName(list[1..], name)
    else WithoutName(list[1..], name)
  }

  /** The list after a toggle: every entry named `obj.name` removed when there
      is one, otherwise `obj` appended. Either way the toggle flips whether
      `obj.name` is a favorite. */
  function Toggled(list: seq<Favorite>, obj: Favorite): (r: seq<Favorite>)
    ensures HasName(r, obj.name) == !HasName(list, obj.name)
  {
    if HasName(list, obj.name) then WithoutName(list, obj.name)
    else
      assert (list + [obj])[|list|] == obj;
      list + [obj]
  }

  ghost predicate UniqueNames(list: seq<Favorite>)
  {
    forall i, j :: 0 <= i < j < |list| ==> list[i].name != list[j].name
  }

  /** Removing a name drops exactly the entries with that name: every other
      entry keeps its multiplicity. */
  lemma {:induction false} WithoutNameCount(list: seq<Favorite>, name: string, f: Favorite)
    ensures multiset(WithoutName(list, name))[f] == if f.name == name then 0 else multiset(list)[f]
  {
    if list != [] {
      WithoutNameCount(list[1..], name, f);
      assert list == [list[0]] + list[1..];
    }
  }

  /** Removal distributes over concatenation, so the kept entries stay in their
      original relative order. */
  lemma {:induction false} WithoutNameAppend(a: seq<Favorite>, b: seq<Favorite>, name: string)
    ensures WithoutName(a + b, name) == WithoutName(a, name) + WithoutName(b, name)
  {
    if a == [] {
      assert a + b == b;
    } else {
      var ab := a + b;
      assert ab[0] == a[0] && ab[1..] == a[1..] + b;
      WithoutNameAppend(a[1..], b, name);
      var rest := WithoutName(a[1..], name);
      if a[0].name != name {
        assert WithoutName(ab, name) == [a[0]] + (rest + WithoutName(b, name));
        assert WithoutName(a, name) == [a[0]] + rest;
      } else {
        assert WithoutName(ab, name) == rest + WithoutName(b, name);
        assert WithoutName(a, name) == rest;
      }
    }
  }

  /** Removing a name that no entry carries leaves the list as it is. */
  lemma {:induction false} WithoutAbsentName(list: seq<Favorite>, name: string)
    requires !HasName(list, name)
    ensures WithoutName(list, name) == list
  {
    if list != [] {
      WithoutAbsentName(list[1..], name);
      assert list == [list[0]] + list[1..];
    }
  }

  lemma {:induction false} WithoutNameKeepsUnique(list: seq<Favorite>, name: string)
    requires UniqueNames(list)
    ensures UniqueNames(WithoutName(list, name))
  {
    if list != [] {
      var rest := list[1..];
      assert UniqueNames(rest) by {
        forall i, j | 0 <= i < j < |rest| ensures rest[i].name != rest[j].name {
          assert rest[i] == list[i + 1] && rest[j] == list[j + 1];
        }
      }
      WithoutNameKeepsUnique(rest, name);
      var r := WithoutName(rest, name);
      if list[0].name != name {
        forall j | 0 <= j < |r| ensures r[j].name != list[0].name {
          assert r[j] in rest;
          var m :| 0 <= m < |rest| && rest[m] == r[j];
          assert rest[m] == list[m + 1];
        }
      }
    }
  }

  /** A toggle leaves every other name's membership as it was. */
  lemma ToggleKeepsOtherNames(list: seq<Favorite>, obj: Favorite, name: string)
    requires name != obj.name
    ensures HasName(Toggled(list, obj), name) == HasName(list, name)
  {
    if HasName(list, obj.name) {
      var r := WithoutName(list, obj.name);
      if HasName(list, name) {
        var i :| 0 <= i < |list| && list[i].name == name;
        WithoutNameCount(list, obj.name, list[i]);
        assert list[i] in multiset(r);
        var j :| 0 <= j < |r| && r[j] == list[i];
      }
      if HasName(r, name) {
        var j :| 0 <= j < |r| && r[j].name == name;
        assert r[j] in list;
      }
    } else {
      var r := list + [obj];
      if HasName(r, name) {
        var i :| 0 <= i < |r| && r[i].name == name;
        assert i < |list| && list[i] == r[i];
      }
      if HasName(list, name) {
        var i :| 0 <= i < |list| && list[i].name == name;
        assert r[i] == list[i];
      }
    }
  }

  /** Toggling an absent entry twice restores the original list. */
  lemma ToggleTwiceRestores(list: seq<Favorite>, obj: Favorite)
    requires !HasName(list, obj.name)
    ensures Toggled(Toggled(list, obj), obj) == list
  {
    WithoutNameAppend(list, [obj], obj.name);
    WithoutAbsentName(list, obj.name);
    assert WithoutName([obj], obj.name) == [];
  }

  /** Names that are unique before a toggle are unique after it. */
  lemma TogglePreservesUniqueNames(list: seq<Favorite>, obj: Favorite)
    requires UniqueNames(list)
    ensures UniqueNames(Toggled(list, obj))
  {
    if HasName(list, obj.name) {
      WithoutNameKeepsUnique(list, obj.name);
    } else {
      var r := list + [obj];
      forall i, j | 0 <= i < j < |r| ensures r[i].name != r[j].name {
        if j == |list| {
          assert r[i] == list[i];
        } else {
          assert r[i] == list[i] && r[j] == list[j];
        }
      }
    }
  }

  /** The application's favorites list, updated in place by a toggle. */
  class FavoritesStore {
    var favorites: seq<Favorite>

    /** Starts from the saved list (empty on first use). */
    constructor (saved: seq<Favorite>)
      ensures favorites == saved
    {
      favorites := saved;
    }

    /** Whether some favorite carries the given name. */
    function IsFavorite(name: string): (r: bool)
      reads this
      ensures r <==> exists i :: 0 <= i < |favorites| && favorites[i].name == name
    {
      HasName(favorites, name)
    }

    method ToggleFavorite(obj: Favorite)
      modifies this
      ensures favorites == Toggled(old(favorites), obj)
      ensures IsFavorite(obj.name) == !old(IsFavorite(obj.name))
      ensures forall n :: n != obj.name ==> IsFavorite(n) == old(IsFavorite(n))
      ensures UniqueNames(old(favorites)) ==> UniqueNames(favorites)
    {
      ghost var before := favorites;
      if IsFavorite(obj.name) {
        favorites := WithoutName(favorites, obj.name);
      } else {
        favorites := favorites + [obj];
      }
      forall n | n != obj.name ensures HasName(favorites, n) == HasName(before, n) {
        ToggleKeepsOtherNames(before, obj, n);
      }
      if UniqueNames(before) {
        TogglePreservesUniqueNames(before, obj);
      }
    }
  }
}
