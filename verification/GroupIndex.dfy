/** The counting hash map and the index of account groups by currency that is kept in it. */
module GroupIndex {
  import opened Wrappers

  datatype Entry<K, V> = Entry(key: K, value: V)

  /** `elements` has the own properties of the object; `length` is counted beside them. */
  class HashMap<K(==), V> {
    var length: int
    var elements: map<K, V>

    ghost predicate Valid()
      reads this
    {
      length == |elements|
    }

    constructor ()
      ensures Valid() && elements == map[]
    {
      length, elements := 0, map[];
    }

    method Size() returns (n: int)
      requires Valid()
      ensures n == |elements|
    {
      n := length;
    }

    method Put(key: K, value: V)
      requires Valid()
      modifies this
      ensures Valid() && elements == old(elements)[key := value]
    {
      if key !in elements {
        length := length + 1;
      }
      elements := elements[key := value];
    }

    /** Every entry of the other map, in any order. */
    method PutAll(newMap: map<K, V>)
      requires Valid()
      modifies this
      ensures Valid() && elements == old(elements) + newMap
    {
      var todo := newMap.Keys;
      PutEnds(old(elements), newMap);
      while todo != {}
        invariant Valid() && todo <= newMap.Keys
        invariant elements == old(elements) + (newMap - todo)
        decreases todo
      {
        var p :| p in todo;
        PutNext(old(elements), newMap, todo, p);
        PutCounts(elements, p, newMap[p]);
        if p !in elements {
          length := length + 1;
        }
        elements := elements[p := newMap[p]];
        todo := todo - {p};
      }
    }

    method Remove(key: K) returns (removed: bool)
      requires Valid()
      modifies this
      ensures Valid() && elements == old(elements) - {key} && removed == (key in old(elements))
    {
      removed := key in elements;
      if removed {
        assert elements.Keys == (elements - {key}).Keys + {key};
        length := length - 1;
        elements := elements - {key};
      }
    }

    method Get(key: K) returns (r: Option<V>)
      ensures r == if key in elements then Some(elements[key]) else None
    {
      r := if key in elements then Some(elements[key]) else None;
    }

    method Clear()
      modifies this
      ensures Valid() && elements == map[]
    {
      elements := map[];
      length := 0;
    }

    /** As many slots as `length` says, filled by running over the properties: none left, none missing. */
    method EntrySet() returns (temp: seq<Option<Entry<K, V>>>)
      requires Valid()
      ensures |temp| == |elements|
      ensures forall i :: 0 <= i < |temp| ==> IsEntry(temp[i], elements)
      ensures forall k :: k in elements ==> Some(Entry(k, elements[k])) in temp
      ensures forall i, j :: 0 <= i < j < |temp| ==> temp[i] != temp[j]
    {
      temp := seq(length, _ => None);
      var i := 0;
      var todo := elements.Keys;
      ghost var at: map<K, nat> := map[];
      while todo != {}
        invariant |todo| + i == |temp| == length
        invariant Filled(temp, i, todo, at, elements)
        decreases todo
      {
        var p :| p in todo;
        FillStep(temp, i, todo, at, elements, p);
        temp := temp[i := Some(Entry(p, elements[p]))];
        at := at[p := i];
        i := i + 1;
        todo := todo - {p};
      }
    }
  }

  lemma PutEnds<K, V>(m: map<K, V>, newMap: map<K, V>)
    ensures m + (newMap - newMap.Keys) == m && newMap - {} == newMap
  {
  }

  lemma PutCounts<K, V>(m: map<K, V>, k: K, v: V)
    ensures |m[k := v]| == |m| + if k in m then 0 else 1
  {
    assert m[k := v].Keys == m.Keys + {k};
  }

  lemma PutNext<K, V>(m: map<K, V>, newMap: map<K, V>, todo: set<K>, p: K)
    requires p in todo && todo <= newMap.Keys
    ensures (m + (newMap - todo))[p := newMap[p]] == m + (newMap - (todo - {p}))
  {
  }

  ghost predicate IsEntry<K, V>(e: Option<Entry<K, V>>, m: map<K, V>) {
    e.Some? && e.value.key in m && e.value.value == m[e.value.key]
  }

  /** The first `i` slots hold the entries of the keys visited so far, each at its own place. */
  ghost predicate Filled<K, V>(temp: seq<Option<Entry<K, V>>>, i: nat, todo: set<K>, at: map<K, nat>, m: map<K, V>) {
    && i <= |temp|
    && m.Keys == todo + at.Keys
    && (forall k :: k in at ==> k !in todo && at[k] < i && temp[at[k]] == Some(Entry(k, m[k])))
    && (forall j :: 0 <= j < i ==> IsEntry(temp[j], m) && temp[j].value.key in at && at[temp[j].value.key] == j)
  }

  lemma FillStep<K, V>(temp: seq<Option<Entry<K, V>>>, i: nat, todo: set<K>, at: map<K, nat>, m: map<K, V>, p: K)
    requires Filled(temp, i, todo, at, m) && i < |temp| && p in todo
    ensures Filled(temp[i := Some(Entry(p, m[p]))], i + 1, todo - {p}, at[p := i], m)
  {
  }

  /** An account group; `id` stands for everything but its currency. */
  datatype Group = Group(currencyTypeId: int, id: int)

  /** The groups of one currency, in their order. */
  function OfCurrency(groups: seq<Group>, c: int): seq<Group> {
    if groups == [] then []
    else
      var last := groups[|groups| - 1];
      OfCurrency(groups[..|groups| - 1], c) + if last.currencyTypeId == c then [last] else []
  }

  /** The map holds for each currency exactly its groups, and no currency without groups. */
  ghost predicate Indexes(elements: map<int, seq<Group>>, groups: seq<Group>) {
    && (forall c :: c in elements ==> elements[c] == OfCurrency(groups, c))
    && (forall c :: c in elements <==> OfCurrency(groups, c) != [])
  }

  class DataBase {
    const groups: HashMap<int, seq<Group>>

    constructor ()
      ensures fresh(groups) && groups.Valid() && groups.elements == map[]
    {
      groups := new HashMap<int, seq<Group>>();
    }

    method Insert(entity: Group, ghost inserted: seq<Group>)
      requires groups.Valid() && Indexes(groups.elements, inserted)
      modifies groups
      ensures groups.Valid() && Indexes(groups.elements, inserted + [entity])
    {
      var key := entity.currencyTypeId;
      var stored := groups.Get(key);
      var groupArray := if stored.None? then [] else stored.value;
      groupArray := groupArray + [entity];
      groups.Put(key, groupArray);
      assert (inserted + [entity])[..|inserted|] == inserted;
      assert forall c :: OfCurrency(inserted + [entity], c)
                      == OfCurrency(inserted, c) + if key == c then [entity] else [];
    }

    /** A non-empty list replaces the index; an empty one leaves it as it was. */
    method InsertGroupData(group: seq<Group>)
      requires groups.Valid()
      modifies groups
      ensures groups.Valid()
      ensures group != [] ==> Indexes(groups.elements, group)
      ensures group == [] ==> groups.elements == old(groups.elements)
    {
      if |group| > 0 {
        groups.Clear();
        var i := 0;
        while i < |group|
          invariant 0 <= i <= |group|
          invariant groups.Valid() && Indexes(groups.elements, group[..i])
        {
          assert group[..i + 1] == group[..i] + [group[i]];
          Insert(group[i], group[..i]);
          i := i + 1;
        }
        assert group[..i] == group;
      }
    }

    /** Null for a currency without groups, otherwise its groups in the order of the list. */
    method GetGroupData(currency: int, ghost inserted: seq<Group>) returns (r: Option<seq<Group>>)
      requires Indexes(groups.elements, inserted)
      ensures r == if OfCurrency(inserted, currency) == [] then None else Some(OfCurrency(inserted, currency))
    {
      r := groups.Get(currency);
    }
  }

  /** The filter keeps every group of the currency and its place among them. */
  lemma {:induction false} FilterKeepsOrder(groups: seq<Group>, c: int) returns (at: seq<nat>)
    ensures |at| == |OfCurrency(groups, c)|
    ensures forall i :: 0 <= i < |at| ==> at[i] < |groups| && groups[at[i]] == OfCurrency(groups, c)[i]
    ensures forall i, j :: 0 <= i < j < |at| ==> at[i] < at[j]
    ensures forall k :: 0 <= k < |groups| ==> (k in at <==> groups[k].currencyTypeId == c)
  {
    if groups == [] {
      at := [];
    } else {
      var n := |groups| - 1;
      var before := FilterKeepsOrder(groups[..n], c);
      at := before + if groups[n].currencyTypeId == c then [n] else [];
      forall k | 0 <= k < |groups|
        ensures k in at <==> groups[k].currencyTypeId == c
      {
        assert k < n ==> groups[..n][k] == groups[k];
      }
    }
  }
}
