/** The "Groups" entry of the customer account menu
    (`BHFE_Groups_Frontend::add_groups_menu_item`). The menu is a PHP ordered array
    from endpoint keys to labels, modelled as a sequence of key/label pairs. The
    insertion itself is an ordered-map operation that does not depend on what the keys
    are, so it is stated for any key and label type. */
module AccountMenu {

  type MenuItems = seq<(string, string)>

  const GroupsKey := "groups"
  const GroupsLabel := "Groups"
  const OrdersKey := "orders"

  /** A PHP array never holds a key twice. */
  predicate DistinctKeys<K(==), V>(items: seq<(K, V)>) {
    forall i, j :: 0 <= i < j < |items| ==> items[i].0 != items[j].0
  }

  predicate HasKey<K(==), V>(items: seq<(K, V)>, key: K) {
    exists i :: 0 <= i < |items| && items[i].0 == key
  }

  /** `$items[$key] = $value`: an existing key keeps its place and takes the new value;
      a new key goes to the end. */
  function Put<K(==), V>(items: seq<(K, V)>, key: K, value: V): (r: seq<(K, V)>)
    ensures HasKey(items, key) ==>
              |r| == |items| && forall i :: 0 <= i < |items| ==> r[i] == if items[i].0 == key then (key, value) else items[i]
    ensures !HasKey(items, key) ==> r == items + [(key, value)]
    ensures DistinctKeys(items) ==> DistinctKeys(r)
    ensures HasKey(r, key)
  {
    if HasKey(items, key) then
      var r := seq(|items|, i requires 0 <= i < |items| => if items[i].0 == key then (key, value) else items[i]);
      var k :| 0 <= k < |items| && items[k].0 == key;
      assert r[k].0 == key;
      r
    else
      var r := items + [(key, value)];
      assert r[|items|].0 == key;
      r
  }

  /** One pass of the loop: copy the item, and when its key is `after`, write the new
      entry right behind it. */
  function Step<K(==), V>(acc: seq<(K, V)>, item: (K, V), after: K, key: K, title: V): seq<(K, V)> {
    var copied := Put(acc, item.0, item.1);
    if item.0 == after then Put(copied, key, title) else copied
  }

  /** The loop run over `items` on a menu that already holds `acc`. */
  function CopyInto<K(==), V>(acc: seq<(K, V)>, items: seq<(K, V)>, after: K, key: K, title: V): seq<(K, V)>
    decreases |items|
  {
    if items == [] then acc else CopyInto(Step(acc, items[0], after, key, title), items[1..], after, key, title)
  }

  /** Copy the menu writing the new entry behind `after`; append it when it is still missing. */
  function InsertAfter<K(==), V>(items: seq<(K, V)>, after: K, key: K, title: V): seq<(K, V)> {
    var copied := CopyInto([], items, after, key, title);
    if HasKey(copied, key) then copied else Put(copied, key, title)
  }

  /** What `add_groups_menu_item` returns. */
  function GroupsMenu(items: MenuItems, canManage: bool): MenuItems {
    if canManage then InsertAfter(items, OrdersKey, GroupsKey, GroupsLabel) else items
  }

  /** `add_groups_menu_item`. */
  method AddGroupsMenuItem(items: MenuItems, canManage: bool) returns (r: MenuItems)
    ensures r == GroupsMenu(items, canManage)
    ensures canManage ==> HasKey(r, GroupsKey)
    ensures DistinctKeys(items) ==> DistinctKeys(r)
  {
    if !canManage {
      return items;
    }
    DistinctCopy([], items, OrdersKey, GroupsKey, GroupsLabel);
    r := [];
    var i := 0;
    while i < |items|
      invariant 0 <= i <= |items|
      invariant CopyInto(r, items[i..], OrdersKey, GroupsKey, GroupsLabel) == CopyInto([], items, OrdersKey, GroupsKey, GroupsLabel)
    {
      assert items[i..][1..] == items[i + 1..];
      r := Put(r, items[i].0, items[i].1);
      if items[i].0 == OrdersKey {
        r := Put(r, GroupsKey, GroupsLabel);
      }
      i := i + 1;
    }
    if !HasKey(r, GroupsKey) {
      r := Put(r, GroupsKey, GroupsLabel);
    }
  }

  /** Copying keeps the keys distinct. */
  lemma {:induction false} DistinctCopy<K, V>(acc: seq<(K, V)>, items: seq<(K, V)>, after: K, key: K, title: V)
    requires DistinctKeys(acc)
    ensures DistinctKeys(CopyInto(acc, items, after, key, title))
    decreases |items|
  {
    if items != [] {
      DistinctCopy(Step(acc, items[0], after, key, title), items[1..], after, key, title);
    }
  }

  /** Without the manage capability the menu comes back unchanged; with it, the result
      always holds a Groups entry, exactly once. */
  lemma GroupsMenuHasGroups(items: MenuItems)
    ensures GroupsMenu(items, false) == items
    ensures HasKey(GroupsMenu(items, true), GroupsKey)
    ensures DistinctKeys(GroupsMenu(items, true))
  {
    DistinctCopy([], items, OrdersKey, GroupsKey, GroupsLabel);
  }

  /** Running the loop over one part of the menu and then over the rest. */
  lemma {:induction false} CopyConcat<K, V>(acc: seq<(K, V)>, p: seq<(K, V)>, q: seq<(K, V)>, after: K, key: K, title: V)
    ensures CopyInto(acc, p + q, after, key, title) == CopyInto(CopyInto(acc, p, after, key, title), q, after, key, title)
    decreases |p|
  {
    if p != [] {
      assert (p + q)[1..] == p[1..] + q;
      CopyConcat(Step(acc, p[0], after, key, title), p[1..], q, after, key, title);
    } else {
      assert p + q == q;
    }
  }

  /** Items without `after` whose keys are new to the menu are simply appended. */
  lemma {:induction false} CopyFresh<K, V>(acc: seq<(K, V)>, items: seq<(K, V)>, after: K, key: K, title: V)
    requires DistinctKeys(items)
    requires forall k :: 0 <= k < |items| ==> items[k].0 != after
    requires forall m, k :: 0 <= m < |acc| && 0 <= k < |items| ==> acc[m].0 != items[k].0
    ensures CopyInto(acc, items, after, key, title) == acc + items
    decreases |items|
  {
    if items != [] {
      var next := acc + [items[0]];
      StepAppends(acc, items[0], after, key, title);
      FreshTail(acc, items);
      CopyFresh(next, items[1..], after, key, title);
      assert next + items[1..] == acc + items;
    }
  }

  /** An item other than `after` whose key is new to the menu is appended. */
  lemma StepAppends<K, V>(acc: seq<(K, V)>, item: (K, V), after: K, key: K, title: V)
    requires item.0 != after && forall m :: 0 <= m < |acc| ==> acc[m].0 != item.0
    ensures Step(acc, item, after, key, title) == acc + [item]
  {
    assert !HasKey(acc, item.0);
  }

  /** Moving the first item into the menu keeps the rest's keys new to it. */
  lemma FreshTail<K, V>(acc: seq<(K, V)>, items: seq<(K, V)>)
    requires DistinctKeys(items) && items != []
    requires forall m, k :: 0 <= m < |acc| && 0 <= k < |items| ==> acc[m].0 != items[k].0
    ensures forall m, k :: 0 <= m < |acc + [items[0]]| && 0 <= k < |items[1..]| ==> (acc + [items[0]])[m].0 != items[1..][k].0
  {
    var next := acc + [items[0]];
    forall m, k | 0 <= m < |next| && 0 <= k < |items[1..]|
      ensures next[m].0 != items[1..][k].0
    {
      assert items[1..][k] == items[k + 1];
      if m < |acc| { assert next[m] == acc[m]; } else { assert next[m] == items[0]; }
    }
  }

  /** The loop around position i: everything before it, the item at i, everything after it. */
  lemma CopyAround<K, V>(items: seq<(K, V)>, i: nat, after: K, key: K, title: V)
    requires i < |items|
    ensures CopyInto([], items, after, key, title) ==
              CopyInto(Step(CopyInto([], items[..i], after, key, title), items[i], after, key, title), items[i + 1..], after, key, title)
  {
    assert items == items[..i] + items[i..];
    CopyConcat([], items[..i], items[i..], after, key, title);
    assert items[i..][1..] == items[i + 1..];
  }

  /** A stretch of the menu without `after`, none of whose keys the built menu holds,
      is copied as it is. */
  lemma CopyRest<K, V>(items: seq<(K, V)>, from: nat, upto: nat, acc: seq<(K, V)>, after: K, key: K, title: V)
    requires DistinctKeys(items) && from <= upto <= |items|
    requires forall k :: from <= k < upto ==> items[k].0 != after
    requires forall m, k :: 0 <= m < |acc| && from <= k < upto ==> acc[m].0 != items[k].0
    ensures CopyInto(acc, items[from..upto], after, key, title) == acc + items[from..upto]
  {
    var rest := items[from..upto];
    assert forall k :: 0 <= k < |rest| ==> rest[k] == items[from + k];
    CopyFresh(acc, rest, after, key, title);
  }

  /** Before the only `after`, the loop copies the menu as it is. */
  lemma CopyBefore<K, V>(items: seq<(K, V)>, i: nat, after: K, key: K, title: V)
    requires DistinctKeys(items) && i < |items| && items[i].0 == after
    ensures CopyInto([], items[..i], after, key, title) == items[..i]
  {
    CopyRest(items, 0, i, [], after, key, title);
    assert items[0..i] == items[..i];
  }

  /** The pass over `after` on a menu holding neither `after` nor the new key: both
      are appended, in that order. */
  lemma StepBehind<K, V>(acc: seq<(K, V)>, item: (K, V), after: K, key: K, title: V)
    requires item.0 == after && after != key && !HasKey(acc, after) && !HasKey(acc, key)
    ensures Step(acc, item, after, key, title) == acc + [item] + [(key, title)]
  {
    var copied := acc + [item];
    assert Put(acc, item.0, item.1) == copied;
    assert !HasKey(copied, key) by {
      forall m | 0 <= m < |copied| ensures copied[m].0 != key {
        if m < |acc| { assert copied[m] == acc[m]; }
      }
    }
  }

  /** The pass over `after` on a menu already holding the new key at j: `after` is
      appended and the entry at j takes the new title. */
  lemma StepRelabel<K, V>(acc: seq<(K, V)>, item: (K, V), j: nat, after: K, key: K, title: V)
    requires DistinctKeys(acc) && item.0 == after && !HasKey(acc, after)
    requires j < |acc| && acc[j].0 == key
    ensures Step(acc, item, after, key, title) == (acc + [item])[j := (key, title)]
  {
    var copied := acc + [item];
    assert Put(acc, item.0, item.1) == copied;
    assert copied[j].0 == key;
    var r := Put(copied, key, title);
    assert |r| == |copied|;
    forall m | 0 <= m < |r| ensures r[m] == copied[j := (key, title)][m] {
      if m < |acc| && m != j { assert acc[m].0 != acc[j].0; }
    }
  }

  /** The pass over an item other than `after` whose key the menu holds at p: the
      entry at p takes the item's title. */
  lemma StepOverwrite<K, V>(acc: seq<(K, V)>, item: (K, V), p: nat, after: K, key: K, title: V)
    requires DistinctKeys(acc) && item.0 != after
    requires p < |acc| && acc[p].0 == item.0
    ensures Step(acc, item, after, key, title) == acc[p := item]
  {
    var r := Put(acc, item.0, item.1);
    forall m | 0 <= m < |r| ensures r[m] == acc[p := item][m] {
      if m != p { assert acc[m].0 != acc[p].0 || m > p || m < p; }
    }
  }

  /** Once the new key is in the built menu, `InsertAfter` adds nothing more. */
  lemma InsertAfterCopied<K, V>(items: seq<(K, V)>, after: K, key: K, title: V, p: nat)
    requires p < |CopyInto([], items, after, key, title)|
    requires CopyInto([], items, after, key, title)[p].0 == key
    ensures InsertAfter(items, after, key, title) == CopyInto([], items, after, key, title)
  {
  }

  /** A menu each of whose entries takes its key from `items` outside [from, upto)
      shares no key with that stretch. */
  lemma KeysElsewhere<K, V>(items: seq<(K, V)>, acc: seq<(K, V)>, origin: seq<nat>, from: nat, upto: nat)
    requires DistinctKeys(items) && from <= upto <= |items| && |origin| == |acc|
    requires forall m :: 0 <= m < |acc| ==> origin[m] < |items| && (origin[m] < from || upto <= origin[m])
    requires forall m :: 0 <= m < |acc| ==> acc[m].0 == items[origin[m]].0
    ensures forall m, k :: 0 <= m < |acc| && from <= k < upto ==> acc[m].0 != items[k].0
  {
    forall m, k | 0 <= m < |acc| && from <= k < upto
      ensures acc[m].0 != items[k].0
    {
      var t := origin[m];
      if t < k { assert items[t].0 != items[k].0; } else { assert items[k].0 != items[t].0; }
    }
  }

  /** The usual case: with `after` at position i and no entry for the new key yet, the
      new entry lands right behind `after` and everything else keeps its order. */
  lemma InsertedBehind<K, V>(items: seq<(K, V)>, i: nat, after: K, key: K, title: V)
    requires DistinctKeys(items) && !HasKey(items, key) && after != key
    requires i < |items| && items[i].0 == after
    ensures InsertAfter(items, after, key, title) == items[..i + 1] + [(key, title)] + items[i + 1..]
  {
    CopyAround(items, i, after, key, title);
    var mid := items[..i + 1] + [(key, title)];
    BehindPrefix(items, i, after, key, title);
    forall m, k | 0 <= m < |mid| && i + 1 <= k < |items|
      ensures mid[m].0 != items[k].0
    {
      if m <= i { assert mid[m] == items[m]; }
    }
    CopyRest(items, i + 1, |items|, mid, after, key, title);
    assert items[i + 1..|items|] == items[i + 1..];
    var r := mid + items[i + 1..];
    assert r[i + 1].0 == key;
    InsertAfterCopied(items, after, key, title, i + 1);
  }

  /** Up to and including `after` at i, the loop copies the menu and adds the new entry. */
  lemma BehindPrefix<K, V>(items: seq<(K, V)>, i: nat, after: K, key: K, title: V)
    requires DistinctKeys(items) && !HasKey(items, key) && after != key
    requires i < |items| && items[i].0 == after
    ensures Step(CopyInto([], items[..i], after, key, title), items[i], after, key, title) == items[..i + 1] + [(key, title)]
  {
    CopyBefore(items, i, after, key, title);
    assert !HasKey(items[..i], after) && !HasKey(items[..i], key) by {
      forall m | 0 <= m < i ensures items[..i][m].0 != after && items[..i][m].0 != key {
        assert items[..i][m] == items[m];
      }
    }
    StepBehind(items[..i], items[i], after, key, title);
    assert items[..i] + [items[i]] == items[..i + 1];
  }

  /** Without `after`, the copy is the menu itself; the new entry is appended only when
      the menu has none. */
  lemma WithoutAnchor<K, V>(items: seq<(K, V)>, after: K, key: K, title: V)
    requires DistinctKeys(items) && !HasKey(items, after)
    ensures !HasKey(items, key) ==> InsertAfter(items, after, key, title) == items + [(key, title)]
    ensures HasKey(items, key) ==> InsertAfter(items, after, key, title) == items
  {
    assert forall k :: 0 <= k < |items| ==> items[k].0 != after;
    CopyFresh([], items, after, key, title);
    assert [] + items == items;
    assert CopyInto([], items, after, key, title) == items;
  }

  /** An entry for the new key placed before `after` keeps its place but loses its title:
      the copy of `after` overwrites it. */
  lemma RelabelledBefore<K, V>(items: seq<(K, V)>, i: nat, j: nat, after: K, key: K, title: V)
    requires DistinctKeys(items) && j < i < |items|
    requires items[i].0 == after && items[j].0 == key
    ensures InsertAfter(items, after, key, title) == items[j := (key, title)]
  {
    var mid := items[..i + 1][j := (key, title)];
    RelabelStep(items, i, j, mid, after, key, title);
    RelabelRest(items, i, j, mid, after, key, title);
    CopyAround(items, i, after, key, title);
    InsertAfterCopied(items, after, key, title, j);
  }

  /** The pass over `after` appends it and retitles the earlier entry. */
  lemma RelabelStep<K, V>(items: seq<(K, V)>, i: nat, j: nat, mid: seq<(K, V)>, after: K, key: K, title: V)
    requires DistinctKeys(items) && j < i < |items|
    requires items[i].0 == after && items[j].0 == key
    requires mid == items[..i + 1][j := (key, title)]
    ensures Step(CopyInto([], items[..i], after, key, title), items[i], after, key, title) == mid
  {
    CopyBefore(items, i, after, key, title);
    var before := items[..i];
    PrefixKeys(items, i, after);
    StepRelabel(before, items[i], j, after, key, title);
    assert before + [items[i]] == items[..i + 1];
  }

  /** The menu before the only `after` has distinct keys and no `after`. */
  lemma PrefixKeys<K, V>(items: seq<(K, V)>, i: nat, after: K)
    requires DistinctKeys(items) && i < |items| && items[i].0 == after
    ensures DistinctKeys(items[..i]) && !HasKey(items[..i], after)
    ensures forall m :: 0 <= m < i ==> items[..i][m] == items[m]
  {
  }

  /** Past `after` the loop copies the rest of the menu as it is. */
  lemma RelabelRest<K, V>(items: seq<(K, V)>, i: nat, j: nat, mid: seq<(K, V)>, after: K, key: K, title: V)
    requires DistinctKeys(items) && j < i < |items|
    requires items[i].0 == after && items[j].0 == key
    requires mid == items[..i + 1][j := (key, title)]
    ensures CopyInto(mid, items[i + 1..], after, key, title) == items[j := (key, title)]
    ensures items[j := (key, title)][j].0 == key
  {
    RelabelledKeysBefore(items, i, j, mid, key, title);
    CopyRest(items, i + 1, |items|, mid, after, key, title);
    assert items[i + 1..|items|] == items[i + 1..];
    RelabelledJoin(items, i, j, mid, key, title);
  }

  /** The menu built up to `after` shares no key with the items past it. */
  lemma RelabelledKeysBefore<K, V>(items: seq<(K, V)>, i: nat, j: nat, mid: seq<(K, V)>, key: K, title: V)
    requires DistinctKeys(items) && j < i < |items| && items[j].0 == key
    requires mid == items[..i + 1][j := (key, title)]
    ensures forall m, k :: 0 <= m < |mid| && i + 1 <= k < |items| ==> mid[m].0 != items[k].0
  {
    var origin := seq(|mid|, m requires 0 <= m < |mid| => m);
    assert forall m :: 0 <= m < |mid| ==> mid[m].0 == items[origin[m]].0;
    KeysElsewhere(items, mid, origin, i + 1, |items|);
  }

  lemma RelabelledJoin<K, V>(items: seq<(K, V)>, i: nat, j: nat, mid: seq<(K, V)>, key: K, title: V)
    requires j < i < |items|
    requires mid == items[..i + 1][j := (key, title)]
    ensures mid + items[i + 1..] == items[j := (key, title)]
  {
    assert items == items[..i + 1] + items[i + 1..];
  }

  /** An entry for the new key placed after `after` moves up right behind `after` and
      keeps its own title: the new entry is written first and the copy of the original
      overwrites its title in place. */
  lemma MovedBehind<K, V>(items: seq<(K, V)>, i: nat, j: nat, after: K, key: K, title: V)
    requires DistinctKeys(items) && i < j < |items|
    requires items[i].0 == after && items[j].0 == key
    ensures InsertAfter(items, after, key, title) == items[..i + 1] + [items[j]] + items[i + 1..j] + items[j + 1..]
  {
    var first := items[..i + 1] + [(key, title)];
    assert Step(CopyInto([], items[..i], after, key, title), items[i], after, key, title) == first by {
      CopyBefore(items, i, after, key, title);
      var before := items[..i];
      assert !HasKey(before, after) && !HasKey(before, key) by {
        forall m | 0 <= m < i ensures before[m] == items[m] { }
      }
      StepBehind(before, items[i], after, key, title);
      assert before + [items[i]] == items[..i + 1];
    }
    var third := CopyPastEntry(items, i, j, first, after, key, title);
    assert third + items[j + 1..] == items[..i + 1] + [items[j]] + items[i + 1..j] + items[j + 1..] by {
      assert third == items[..i + 1] + [items[j]] + items[i + 1..j];
    }
    CopyAround(items, i, after, key, title);
    InsertAfterCopied(items, after, key, title, i + 1);
  }

  /** After `after` and the new entry, the loop copies the items up to the old entry,
      overwrites the new entry's title with the old one, and copies the rest. */
  lemma CopyPastEntry<K, V>(items: seq<(K, V)>, i: nat, j: nat, first: seq<(K, V)>, after: K, key: K, title: V)
    returns (third: seq<(K, V)>)
    requires DistinctKeys(items) && i < j < |items|
    requires items[i].0 == after && items[j].0 == key
    requires first == items[..i + 1] + [(key, title)]
    ensures third == items[..i + 1] + [items[j]] + items[i + 1..j]
    ensures CopyInto(first, items[i + 1..], after, key, title) == third + items[j + 1..]
  {
    var second := first + items[i + 1..j];
    third := items[..i + 1] + [items[j]] + items[i + 1..j];
    CopyUpToEntry(items, i, j, first, after, key, title);
    EntryOverwritten(items, i, j, first, second, third, after, key, title);
    CopyAfterEntry(items, i, j, third, after, key, title);
    assert items[i + 1..] == items[i + 1..j] + items[j..];
    CopyConcat(first, items[i + 1..j], items[j..], after, key, title);
    assert items[j..][1..] == items[j + 1..];
  }

  /** Between `after` and the old entry the loop copies the menu as it is. */
  lemma CopyUpToEntry<K, V>(items: seq<(K, V)>, i: nat, j: nat, first: seq<(K, V)>, after: K, key: K, title: V)
    requires DistinctKeys(items) && i < j < |items|
    requires items[i].0 == after && items[j].0 == key
    requires first == items[..i + 1] + [(key, title)]
    ensures CopyInto(first, items[i + 1..j], after, key, title) == first + items[i + 1..j]
  {
    forall m, k | 0 <= m < |first| && i + 1 <= k < j
      ensures first[m].0 != items[k].0
    {
      if m <= i { assert first[m] == items[m]; }
    }
    CopyRest(items, i + 1, j, first, after, key, title);
  }

  /** The copy of the old entry overwrites the new entry's title in place. */
  lemma EntryOverwritten<K, V>(items: seq<(K, V)>, i: nat, j: nat, first: seq<(K, V)>, second: seq<(K, V)>,
                               third: seq<(K, V)>, after: K, key: K, title: V)
    requires DistinctKeys(items) && i < j < |items|
    requires items[i].0 == after && items[j].0 == key
    requires first == items[..i + 1] + [(key, title)]
    requires second == first + items[i + 1..j]
    requires third == items[..i + 1] + [items[j]] + items[i + 1..j]
    ensures Step(second, items[j], after, key, title) == third
  {
    SecondDistinct(items, i, j, first, second, key, title);
    StepOverwrite(second, items[j], i + 1, after, key, title);
    assert second[i + 1 := items[j]] == third;
  }

  /** Past the old entry the loop copies the rest of the menu as it is. */
  lemma CopyAfterEntry<K, V>(items: seq<(K, V)>, i: nat, j: nat, third: seq<(K, V)>, after: K, key: K, title: V)
    requires DistinctKeys(items) && i < j < |items|
    requires items[i].0 == after
    requires third == items[..i + 1] + [items[j]] + items[i + 1..j]
    ensures CopyInto(third, items[j + 1..], after, key, title) == third + items[j + 1..]
  {
    MovedKeysBefore(items, i, j, third);
    CopyRest(items, j + 1, |items|, third, after, key, title);
    assert items[j + 1..|items|] == items[j + 1..];
  }

  /** The menu built up to the old entry shares no key with the items past it. */
  lemma MovedKeysBefore<K, V>(items: seq<(K, V)>, i: nat, j: nat, third: seq<(K, V)>)
    requires DistinctKeys(items) && i < j < |items|
    requires third == items[..i + 1] + [items[j]] + items[i + 1..j]
    ensures forall m, k :: 0 <= m < |third| && j + 1 <= k < |items| ==> third[m].0 != items[k].0
  {
    var origin := seq(|third|, m requires 0 <= m < |third| => if m <= i then m else if m == i + 1 then j else m - 1);
    forall m | 0 <= m < |third| ensures third[m] == items[origin[m]] {
      if m <= i { assert third[m] == items[..i + 1][m]; }
      else if m > i + 1 { assert third[m] == items[i + 1..j][m - i - 2]; }
    }
    KeysElsewhere(items, third, origin, j + 1, |items|);
  }

  /** The menu built up to the old entry has distinct keys, the new one at i + 1. */
  lemma SecondDistinct<K, V>(items: seq<(K, V)>, i: nat, j: nat, first: seq<(K, V)>, second: seq<(K, V)>, key: K, title: V)
    requires DistinctKeys(items) && i < j < |items| && items[j].0 == key
    requires first == items[..i + 1] + [(key, title)]
    requires second == first + items[i + 1..j]
    ensures DistinctKeys(second) && |second| == j + 1 && second[i + 1].0 == key
  {
    assert forall m :: 0 <= m < |second| ==> second[m].0 == if m <= i then items[m].0 else if m == i + 1 then key else items[m - 1].0;
  }


  /** `orders` present and no `groups` yet: Groups lands right after `orders`. */
  lemma GroupsInsertedAfterOrders(items: MenuItems, i: nat)
    requires DistinctKeys(items) && !HasKey(items, GroupsKey)
    requires i < |items| && items[i].0 == OrdersKey
    ensures GroupsMenu(items, true) == items[..i + 1] + [(GroupsKey, GroupsLabel)] + items[i + 1..]
  {
    InsertedBehind(items, i, OrdersKey, GroupsKey, GroupsLabel);
  }

  /** No `orders`: Groups is appended when missing, and an existing entry is left alone. */
  lemma GroupsWithoutOrders(items: MenuItems)
    requires DistinctKeys(items) && !HasKey(items, OrdersKey)
    ensures !HasKey(items, GroupsKey) ==> GroupsMenu(items, true) == items + [(GroupsKey, GroupsLabel)]
    ensures HasKey(items, GroupsKey) ==> GroupsMenu(items, true) == items
  {
    WithoutAnchor(items, OrdersKey, GroupsKey, GroupsLabel);
  }

  /** A `groups` entry before `orders` keeps its place and takes the title "Groups". */
  lemma GroupsBeforeOrdersRelabelled(items: MenuItems, i: nat, j: nat)
    requires DistinctKeys(items) && j < i < |items|
    requires items[i].0 == OrdersKey && items[j].0 == GroupsKey
    ensures GroupsMenu(items, true) == items[j := (GroupsKey, GroupsLabel)]
  {
    RelabelledBefore(items, i, j, OrdersKey, GroupsKey, GroupsLabel);
  }

  /** A `groups` entry after `orders` moves up right behind `orders` with its own title. */
  lemma GroupsAfterOrdersMoved(items: MenuItems, i: nat, j: nat)
    requires DistinctKeys(items) && i < j < |items|
    requires items[i].0 == OrdersKey && items[j].0 == GroupsKey
    ensures GroupsMenu(items, true) == items[..i + 1] + [items[j]] + items[i + 1..j] + items[j + 1..]
  {
    MovedBehind(items, i, j, OrdersKey, GroupsKey, GroupsLabel);
  }
}
