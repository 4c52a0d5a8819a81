/** The most-recently-used folder list (LruManager) and the registry values it is
    persisted in (AppEnv's LruItem<n> values, a store indexed from 1). */
module Lru {
  import opened Wrappers

  /** Slot i holds a non-empty item (GetLruItem returns null for a missing value;
      both null and "" end the load loop). */
  predicate Present(slots: map<int, string>, i: int)
  {
    i in slots && slots[i] != ""
  }

  /** Slots 1..k hold items and slot k + 1 does not: k is where loading stops. */
  predicate LoadsUpTo(slots: map<int, string>, k: nat)
  {
    (forall i :: 1 <= i <= k ==> Present(slots, i)) && !Present(slots, k + 1)
  }

  const InitialMaxLruItems: int := 10

  /** The items a freshly constructed manager holds: the first (at most 10) of the slots read. */
  function LoadedItems(slots: map<int, string>, k: nat): (items: seq<string>)
    requires LoadsUpTo(slots, k)
    ensures |items| == if k < InitialMaxLruItems then k else InitialMaxLruItems
    ensures forall i :: 0 <= i < |items| ==> Present(slots, i + 1) && items[i] == slots[i + 1]
  {
    seq(if k < InitialMaxLruItems then k else InitialMaxLruItems,
        i requires 0 <= i < k => assert Present(slots, i + 1); slots[i + 1])
  }

  /** The registry key holding LruItem1, LruItem2, ... (AppEnv). */
  class LruStore {
    var slots: map<int, string>

    constructor(initial: map<int, string>)
      ensures slots == initial
    {
      slots := initial;
    }

    /** GetLruItem: the value at `index`, None when it does not exist. */
    function GetLruItem(index: int): (r: Option<string>)
      reads this
      ensures r.Some? <==> index in slots
      ensures r.Some? ==> r.value == slots[index]
    {
      if index in slots then Some(slots[index]) else None
    }

    method SetLruItem(index: int, value: string)
      modifies this
      ensures slots == old(slots)[index := value]
    {
      slots := slots[index := value];
    }

    /** RemoveLruItem deletes with throwOnMissingValue = true: a missing value throws
        (ok = false) and nothing changes. */
    method RemoveLruItem(index: int) returns (ok: bool)
      modifies this
      ensures ok == (index in old(slots))
      ensures slots == old(slots) - {index}
    {
      ok := index in slots;
      if ok {
        slots := slots - {index};
      }
    }
  }

  // ---------------------------------------------------------------------------------
  // Specification of Add

  /** List.IndexOf: the first index holding x, or -1. */
  function IndexOf(s: seq<string>, x: string): (i: int)
    ensures -1 <= i < |s|
    ensures i >= 0 ==> s[i] == x && forall j :: 0 <= j < i ==> s[j] != x
    ensures i == -1 <==> x !in s
  {
    if s == [] then -1
    else if s[0] == x then 0
    else var j := IndexOf(s[1..], x); if j == -1 then -1 else j + 1
  }

  function RemoveAt(s: seq<string>, i: int): (r: seq<string>)
    requires 0 <= i < |s|
    ensures |r| == |s| - 1
  {
    s[..i] + s[i + 1..]
  }

  /** List.RemoveAt keeps the entries before i and shifts the later ones down by one. */
  lemma RemoveAtEntries(s: seq<string>, i: int)
    requires 0 <= i < |s|
    ensures forall k :: 0 <= k < i ==> RemoveAt(s, i)[k] == s[k]
    ensures forall k :: i <= k < |s| - 1 ==> RemoveAt(s, i)[k] == s[k + 1]
  {
  }

  /** The list after Add(x) with capacity max. */
  function Touch(s: seq<string>, x: string, max: int): seq<string>
  {
    var index := IndexOf(s, x);
    if index == 0 then s
    else if index > 0 then [x] + RemoveAt(s, index)
    else if |s| >= max && |s| > 0 then [x] + s[..|s| - 1]
    else [x] + s
  }

  predicate NoDuplicates(s: seq<string>)
  {
    forall i, j :: 0 <= i < j < |s| ==> s[i] != s[j]
  }

  /** After Add(x), x is the most recent item. */
  lemma TouchPutsFirst(s: seq<string>, x: string, max: int)
    ensures |Touch(s, x, max)| > 0 && Touch(s, x, max)[0] == x
  {
  }

  /** Adding the item that is already first changes nothing. */
  lemma TouchFirstIsNoop(s: seq<string>, x: string, max: int)
    requires |s| > 0 && s[0] == x
    ensures Touch(s, x, max) == s
  {
  }

  /** Adding an item already in the list moves it to the front: the count is unchanged and
      the other items keep their relative order. */
  lemma TouchMovesExisting(s: seq<string>, x: string, max: int, i: int)
    requires 0 < i < |s| && s[i] == x && x !in s[..i]
    ensures Touch(s, x, max) == [x] + s[..i] + s[i + 1..]
    ensures |Touch(s, x, max)| == |s|
    ensures multiset(Touch(s, x, max)) == multiset(s)
  {
    assert s == s[..i] + [s[i]] + s[i + 1..];
    assert IndexOf(s, x) == i;
  }

  /** Adding a new item to a full list evicts the last (least recent) item; otherwise the
      list grows by one. Either way it never exceeds its capacity. */
  lemma TouchInsertsNew(s: seq<string>, x: string, max: int)
    requires x !in s && |s| <= max && max > 0
    ensures |s| == max ==> Touch(s, x, max) == [x] + s[..|s| - 1]
    ensures |s| < max ==> Touch(s, x, max) == [x] + s
    ensures |Touch(s, x, max)| <= max
  {
  }

  /** Add keeps the list within its capacity. */
  lemma TouchBounded(s: seq<string>, x: string, max: int)
    requires |s| <= max && max > 0
    ensures |Touch(s, x, max)| <= max
  {
  }

  /** Add keeps a list free of duplicates. */
  lemma TouchNoDuplicates(s: seq<string>, x: string, max: int)
    requires NoDuplicates(s)
    ensures NoDuplicates(Touch(s, x, max))
  {
    var index := IndexOf(s, x);
    var r := Touch(s, x, max);
    if index > 0 {
      var rest := RemoveAt(s, index);
      assert forall k :: 0 <= k < |rest| ==> rest[k] == (if k < index then s[k] else s[k + 1]);
      forall i, j | 0 <= i < j < |r| ensures r[i] != r[j] {
        if i == 0 {
          assert r[j] == rest[j - 1];
        } else {
          assert r[i] == rest[i - 1] && r[j] == rest[j - 1];
        }
      }
    } else if index == -1 {
      var rest := if |s| >= max && |s| > 0 then s[..|s| - 1] else s;
      assert r == [x] + rest;
      forall i, j | 0 <= i < j < |r| ensures r[i] != r[j] {
        if i == 0 {
          assert r[j] == rest[j - 1] && rest[j - 1] in s;
        } else {
          assert r[i] == s[i - 1] && r[j] == s[j - 1];
        }
      }
    }
  }

  // ---------------------------------------------------------------------------------
  // Specification of CleanUp

  /** The items matching the predicate, in list order (CleanUp's removeItems). */
  function Matched(s: seq<string>, pred: string -> bool): (r: seq<string>)
    ensures forall i :: 0 <= i < |r| ==> pred(r[i])
  {
    if s == [] then [] else (if pred(s[0]) then [s[0]] else []) + Matched(s[1..], pred)
  }

  /** Nothing matches exactly when no item satisfies the predicate. */
  lemma {:induction false} MatchedEmpty(s: seq<string>, pred: string -> bool)
    ensures Matched(s, pred) == [] <==> !exists i :: 0 <= i < |s| && pred(s[i])
  {
    if s != [] {
      MatchedEmpty(s[1..], pred);
      if !pred(s[0]) {
        assert forall i :: 1 <= i < |s| ==> s[i] == s[1..][i - 1];
      }
    }
  }

  /** The items not matching the predicate, in list order. */
  function Kept(s: seq<string>, pred: string -> bool): (r: seq<string>)
    ensures |r| <= |s|
  {
    if s == [] then [] else (if pred(s[0]) then [] else [s[0]]) + Kept(s[1..], pred)
  }

  /** An item stays exactly when it was in the list and does not match. */
  lemma {:induction false} KeptMembers(s: seq<string>, pred: string -> bool, x: string)
    ensures x in Kept(s, pred) <==> x in s && !pred(x)
  {
    if s != [] {
      KeptMembers(s[1..], pred, x);
      assert s == [s[0]] + s[1..];
      assert x in s <==> x == s[0] || x in s[1..];
      var head := if pred(s[0]) then [] else [s[0]];
      assert Kept(s, pred) == head + Kept(s[1..], pred);
      assert x in Kept(s, pred) <==> x in head || x in Kept(s[1..], pred);
    }
  }

  /** When nothing matches, every item is kept: the list is unchanged. */
  lemma {:induction false} KeptAllWhenNoneMatch(s: seq<string>, pred: string -> bool)
    requires forall i :: 0 <= i < |s| ==> !pred(s[i])
    ensures Kept(s, pred) == s
  {
    if s != [] {
      KeptAllWhenNoneMatch(s[1..], pred);
    }
  }

  lemma {:induction false} MatchedAppend(a: seq<string>, b: seq<string>, pred: string -> bool)
    ensures Matched(a + b, pred) == Matched(a, pred) + Matched(b, pred)
  {
    if a == [] {
      assert a + b == b;
    } else {
      assert (a + b)[0] == a[0];
      assert (a + b)[1..] == a[1..] + b;
      MatchedAppend(a[1..], b, pred);
      var head := if pred(a[0]) then [a[0]] else [];
      calc {
        Matched(a + b, pred);
        head + Matched(a[1..] + b, pred);
        head + (Matched(a[1..], pred) + Matched(b, pred));
        (head + Matched(a[1..], pred)) + Matched(b, pred);
        Matched(a, pred) + Matched(b, pred);
      }
    }
  }

  /** List.Remove: removes the first occurrence of x, if any. */
  function RemoveFirst(s: seq<string>, x: string): seq<string>
  {
    if s == [] then [] else if s[0] == x then s[1..] else [s[0]] + RemoveFirst(s[1..], x)
  }

  /** The list with its first k matching items removed. */
  function DropMatched(s: seq<string>, pred: string -> bool, k: nat): seq<string>
  {
    if s == [] then []
    else if pred(s[0]) && k > 0 then DropMatched(s[1..], pred, k - 1)
    else [s[0]] + DropMatched(s[1..], pred, k)
  }

  lemma {:induction false} DropNone(s: seq<string>, pred: string -> bool)
    ensures DropMatched(s, pred, 0) == s
  {
    if s != [] {
      DropNone(s[1..], pred);
    }
  }

  /** Removing the first occurrence of the next matched item is the same as dropping one
      more matched position: the earlier occurrences of that value are matched too, so they
      are already gone. */
  lemma {:induction false} RemoveNextMatched(s: seq<string>, pred: string -> bool, k: nat)
    requires k < |Matched(s, pred)|
    ensures RemoveFirst(DropMatched(s, pred, k), Matched(s, pred)[k]) == DropMatched(s, pred, k + 1)
  {
    if pred(s[0]) {
      if k == 0 {
        DropNone(s, pred);
        DropNone(s[1..], pred);
      } else {
        RemoveNextMatched(s[1..], pred, k - 1);
      }
    } else {
      RemoveNextMatched(s[1..], pred, k);
    }
  }

  /** Dropping every matched item leaves exactly the kept ones. */
  lemma {:induction false} DropAllMatched(s: seq<string>, pred: string -> bool)
    ensures DropMatched(s, pred, |Matched(s, pred)|) == Kept(s, pred)
  {
    if s != [] {
      DropAllMatched(s[1..], pred);
    }
  }

  // ---------------------------------------------------------------------------------
  // Specification of Save

  /** The slots after the first n items are written to slots 1..n. */
  function Overwrite(slots: map<int, string>, items: seq<string>, n: nat): (r: map<int, string>)
    requires n <= |items|
    ensures forall j :: 1 <= j <= n ==> j in r && r[j] == items[j - 1]
    ensures forall j :: (j < 1 || j > n) ==> (j in r <==> j in slots) && (j in r ==> r[j] == slots[j])
  {
    if n == 0 then slots else Overwrite(slots, items, n - 1)[n := items[n - 1]]
  }

  /** The indices lo+1..hi. */
  function Between(lo: int, hi: int): (r: set<int>)
    ensures forall j :: j in r <==> lo < j <= hi
    decreases hi - lo
  {
    if hi <= lo then {} else Between(lo, hi - 1) + {hi}
  }

  /** The store after a successful Save of `items` by a manager that read `maxRead` slots. */
  function SavedSlots(slots: map<int, string>, items: seq<string>, maxRead: int): (r: map<int, string>)
    ensures forall j :: 1 <= j <= |items| ==> j in r && r[j] == items[j - 1]
    ensures forall j :: |items| < j <= maxRead ==> j !in r
    ensures forall j :: (j < 1 || (j > |items| && j > maxRead)) ==>
              (j in r <==> j in slots) && (j in r ==> r[j] == slots[j])
  {
    Overwrite(slots, items, |items|) - Between(|items|, maxRead)
  }

  /** Saving and loading again gives the same list back, provided the store held nothing
      beyond the slots that were read, no item is empty and the list fits the load limit. */
  lemma SaveThenLoad(slots: map<int, string>, maxRead: nat, items: seq<string>)
    requires LoadsUpTo(slots, maxRead)
    requires forall j :: j > maxRead ==> j !in slots
    requires |items| <= InitialMaxLruItems
    requires forall i :: 0 <= i < |items| ==> items[i] != ""
    ensures LoadsUpTo(SavedSlots(slots, items, maxRead), |items|)
    ensures LoadedItems(SavedSlots(slots, items, maxRead), |items|) == items
  {
    var r := SavedSlots(slots, items, maxRead);
    assert !Present(r, |items| + 1);
  }

  // ---------------------------------------------------------------------------------

  /** The indices 1..k. */
  function Range(k: nat): (r: set<int>)
    ensures forall i :: i in r <==> 1 <= i <= k
    ensures |r| == k
  {
    if k == 0 then {} else Range(k - 1) + {k}
  }

  /** A map holding keys 1..k has at least k entries. */
  lemma RangeInKeys(slots: map<int, string>, k: nat)
    requires forall i :: 1 <= i <= k ==> i in slots
    ensures k <= |slots|
  {
    var range := Range(k);
    var keys := slots.Keys;
    assert keys == range + (keys - range);
    assert range * (keys - range) == {};
  }

  class LruManager {
    var maxLruItems: int
    var lruItems: seq<string>
    var maxReadLruItems: int
    var isModified: bool

    ghost predicate Valid()
      reads this
    {
      0 < maxLruItems && |lruItems| <= maxLruItems && maxReadLruItems >= 0
    }

    /** Reads LruItem1, LruItem2, ... until a missing or empty value; keeps the first
        maxLruItems (10) of them and remembers how many were read. */
    constructor(store: LruStore)
      ensures Valid() && maxLruItems == InitialMaxLruItems && !isModified
      ensures LoadsUpTo(store.slots, maxReadLruItems)
      ensures lruItems == LoadedItems(store.slots, maxReadLruItems)
    {
      maxLruItems := InitialMaxLruItems;
      isModified := false;
      lruItems := [];
      maxReadLruItems := 0;
      new;

      var index := 1;
      var item := store.GetLruItem(index);

      while item.Some? && item.value != ""
        invariant 1 <= index
        invariant maxLruItems == InitialMaxLruItems && !isModified
        invariant item == store.GetLruItem(index)
        invariant forall i :: 1 <= i < index ==> Present(store.slots, i)
        invariant |lruItems| == if index - 1 < maxLruItems then index - 1 else maxLruItems
        invariant forall i :: 0 <= i < |lruItems| ==> i + 1 in store.slots && lruItems[i] == store.slots[i + 1]
        decreases |store.slots| - index
      {
        assert forall i :: 1 <= i <= index ==> i in store.slots by {
          forall i | 1 <= i <= index ensures i in store.slots {
            if i < index {
              assert Present(store.slots, i);
            }
          }
        }
        RangeInKeys(store.slots, index);
        if index <= maxLruItems {
          lruItems := lruItems + [item.value];
        }
        index := index + 1;
        item := store.GetLruItem(index);
      }

      maxReadLruItems := index - 1;
    }

    /** The MaxLruItems setter: rejects values <= 0 (ArgumentException, ok = false);
        otherwise drops items from the tail until the list fits. */
    method SetMaxLruItems(value: int) returns (ok: bool)
      requires Valid()
      modifies this
      ensures Valid()
      ensures ok == (value > 0)
      ensures !ok ==> maxLruItems == old(maxLruItems) && lruItems == old(lruItems)
      ensures ok ==> maxLruItems == value &&
                     lruItems == old(lruItems)[..if |old(lruItems)| < value then |old(lruItems)| else value]
      ensures isModified == old(isModified) && maxReadLruItems == old(maxReadLruItems)
    {
      if value <= 0 {
        return false;
      }
      maxLruItems := value;
      while |lruItems| > maxLruItems
        invariant |lruItems| <= |old(lruItems)|
        invariant lruItems == old(lruItems)[..|lruItems|]
        invariant |lruItems| >= (if |old(lruItems)| < value then |old(lruItems)| else value)
        invariant maxLruItems == value && isModified == old(isModified) && maxReadLruItems == old(maxReadLruItems)
      {
        lruItems := lruItems[..|lruItems| - 1];
      }
      ok := true;
    }

    /** Moves `item` to the front, inserting it (and evicting the last item when full)
        when it is not in the list yet. */
    method Add(item: string)
      requires Valid()
      modifies this
      ensures Valid()
      ensures lruItems == Touch(old(lruItems), item, maxLruItems)
      ensures isModified == (old(isModified) || lruItems != old(lruItems))
      ensures maxLruItems == old(maxLruItems) && maxReadLruItems == old(maxReadLruItems)
    {
      var index := IndexOf(lruItems, item);

      if index == 0 {
        return;
      }

      if index > 0 {
        lruItems := RemoveAt(lruItems, index);
      } else {
        var cnt := |lruItems|;
        if cnt >= maxLruItems {
          lruItems := RemoveAt(lruItems, cnt - 1);
        }
      }

      isModified := true;
      lruItems := [item] + lruItems;
      // the list did change: item is now first, and it was not first before
      assert lruItems[0] == item;
    }

    /** Removes every item the predicate holds for, keeping the others in order; marks the
        list modified when at least one item matched. */
    method CleanUp(pred: string -> bool)
      requires Valid()
      modifies this
      ensures Valid()
      ensures lruItems == Kept(old(lruItems), pred)
      ensures isModified == (old(isModified) || exists i :: 0 <= i < |old(lruItems)| && pred(old(lruItems)[i]))
      ensures maxLruItems == old(maxLruItems) && maxReadLruItems == old(maxReadLruItems)
    {
      var removeItems: seq<string> := [];
      var s := lruItems;

      // the first loop only reads the list; a match marks the list modified
      for j := 0 to |s|
        invariant removeItems == Matched(s[..j], pred)
        modifies {}
      {
        MatchedAppend(s[..j], [s[j]], pred);
        assert s[..j + 1] == s[..j] + [s[j]];
        if pred(s[j]) {
          removeItems := removeItems + [s[j]];
        }
      }
      assert s[..|s|] == s;
      if removeItems != [] {
        isModified := true;
      }
      DropNone(s, pred);

      for k := 0 to |removeItems|
        invariant lruItems == DropMatched(s, pred, k)
        invariant removeItems == Matched(s, pred)
        invariant isModified == (old(isModified) || removeItems != [])
        invariant maxLruItems == old(maxLruItems) && maxReadLruItems == old(maxReadLruItems)
      {
        RemoveNextMatched(s, pred, k);
        lruItems := RemoveFirst(lruItems, removeItems[k]);
      }

      DropAllMatched(s, pred);
      KeptLength(s, pred);
      MatchedEmpty(s, pred);
    }

    /** Writes the list back to slots 1..Count and deletes slots Count+1..maxReadLruItems,
        when the list was modified. A delete of a missing value throws (ok = false): the
        writes done until then stay. */
    method Save(store: LruStore) returns (ok: bool)
      requires Valid()
      modifies store
      ensures !isModified ==> ok && store.slots == old(store.slots)
      ensures isModified ==>
                ok == (forall j :: |lruItems| < j <= maxReadLruItems ==> j in old(store.slots))
      ensures isModified && ok ==> store.slots == SavedSlots(old(store.slots), lruItems, maxReadLruItems)
      ensures isModified && !ok ==>
                forall j :: 1 <= j <= |lruItems| ==> j in store.slots && store.slots[j] == lruItems[j - 1]
    {
      if !isModified {
        return true;
      }

      WriteSlots(store, lruItems);
      ok := DeleteSlots(store, |lruItems|, maxReadLruItems);
    }

    /** Save's first loop: LruItem<i+1> := items[i]. */
    static method WriteSlots(store: LruStore, items: seq<string>)
      modifies store
      ensures store.slots == Overwrite(old(store.slots), items, |items|)
    {
      var index := 0;
      while index < |items|
        invariant 0 <= index <= |items|
        invariant store.slots == Overwrite(old(store.slots), items, index)
      {
        store.SetLruItem(index + 1, items[index]);
        index := index + 1;
      }
    }

    /** Save's second loop: deletes LruItem<lo+1>..LruItem<hi>, stopping at the first missing one. */
    static method DeleteSlots(store: LruStore, lo: int, hi: int) returns (ok: bool)
      modifies store
      ensures ok == (forall j :: lo < j <= hi ==> j in old(store.slots))
      ensures ok ==> store.slots == old(store.slots) - Between(lo, hi)
      ensures forall j :: (j <= lo || j > hi) ==>
                (j in store.slots <==> j in old(store.slots)) &&
                (j in store.slots ==> store.slots[j] == old(store.slots)[j])
    {
      var index := lo;
      while index < hi
        invariant lo <= index || hi <= lo
        invariant index <= hi || index == lo
        invariant store.slots == old(store.slots) - Between(lo, index)
        invariant forall j :: lo < j <= index ==> j in old(store.slots)
      {
        ok := store.RemoveLruItem(index + 1);
        if !ok {
          return;
        }
        assert store.slots == old(store.slots) - Between(lo, index + 1);
        index := index + 1;
      }
      ok := true;
    }
  }

  lemma KeptLength(s: seq<string>, pred: string -> bool)
    ensures |Kept(s, pred)| <= |s|
  {
  }
}
