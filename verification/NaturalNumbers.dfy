/** natural_number_set and natural_number_map (src/natural_number_*.cpp): a vector of values beside a bitset
    that says which are present. */
module NaturalNumbers {
  import opened NeighborOrder
  import opened Wrappers

  type Tag = nat

  function Resized<T>(s: seq<T>, n: nat, fill: T): (r: seq<T>)
    ensures |r| == n
    ensures forall i :: 0 <= i < n ==> r[i] == if i < |s| then s[i] else fill
  {
    seq(n, i requires 0 <= i < n => if i < |s| then s[i] else fill)
  }

  class NaturalNumberSet {
    var values: seq<nat>
    var bits: seq<bool>

    ghost predicate Valid()
      reads this
    {
      && Distinct(values)
      && (forall i :: 0 <= i < |values| ==> values[i] < |bits| && bits[values[i]])
      && (forall x :: 0 <= x < |bits| && bits[x] ==> x in values)
    }

    ghost function Contents(): set<nat>
      reads this
    {
      Elems(values)
    }

    constructor ()
      ensures Valid() && values == [] && |bits| == 0
    {
      values, bits := [], [];
    }

    predicate IsEmpty()
      reads this
    {
      |values| == 0
    }

    lemma SizeIsCard()
      requires Valid()
      ensures |values| == |Contents()|
    {
      DistinctCard(values);
    }

    // The vector does not look for duplicates: an id already present is appended again, and the set is no longer one.
    method Insert(id: nat)
      requires Valid()
      modifies this
      ensures Valid() <==> id !in old(Contents())
      ensures Contents() == old(Contents()) + {id} && values == old(values) + [id]
      ensures |bits| == if id < |old(bits)| then |old(bits)| else id + 1
    {
      ghost var before := values;
      values := values + [id];
      if id >= |bits| {
        bits := Resized(bits, id + 1, false);
      }
      bits := bits[id := true];
      assert forall x :: x in before ==> x in values;
      assert values[|before|] == id;
      if id in before {
        var i :| 0 <= i < |before| && before[i] == id;
        assert values[i] == values[|before|];
      }
    }

    // None stands for the error thrown on an empty set.
    method PopAny() returns (r: Option<nat>)
      requires Valid()
      modifies this
      ensures Valid() && |bits| == |old(bits)|
      ensures r.None? <==> old(Contents()) == {}
      ensures r.None? ==> Contents() == old(Contents())
      ensures r.Some? ==> r.value in old(Contents()) && Contents() == old(Contents()) - {r.value}
      ensures r.Some? ==> r.value == old(values)[|old(values)| - 1] && values == old(values)[..|old(values)| - 1]
    {
      if |values| == 0 {
        return None;
      }
      var id := values[|values| - 1];
      ghost var before := values;
      assert before[|before| - 1] in before;
      values := values[..|values| - 1];
      bits := bits[id := false];
      assert before == values + [id];
      return Some(id);
    }

    method Clear()
      modifies this
      ensures Valid() && values == [] && |bits| == 0
    {
      values, bits := [], [];
    }

    predicate IsInSet(id: nat)
      reads this
      requires id < |bits|
    {
      bits[id]
    }
  }

  datatype Position = Position(key: Option<nat>, enumerated: nat)

  ghost function KeysOf(bits: seq<bool>): set<nat> {
    set k | 0 <= k < |bits| && bits[k]
  }

  lemma KeysUpdated(bits: seq<bool>, key: nat, on: bool)
    requires key < |bits|
    ensures KeysOf(bits[key := on]) == if on then KeysOf(bits) + {key} else KeysOf(bits) - {key}
    ensures |KeysOf(bits[key := on])| ==
              |KeysOf(bits)| + (if on && !bits[key] then 1 else 0) - (if !on && bits[key] then 1 else 0)
  {
    var after := bits[key := on];
    assert KeysOf(after) == if on then KeysOf(bits) + {key} else KeysOf(bits) - {key};
  }

  ghost function Entries(bits: seq<bool>, values: seq<Tag>): map<nat, Tag>
    requires |bits| == |values|
  {
    map k | k in KeysOf(bits) :: values[k]
  }

  lemma EntriesPut(bits: seq<bool>, values: seq<Tag>, key: nat, value: Tag)
    requires |bits| == |values| && key < |bits|
    ensures Entries(bits[key := true], values[key := value]) == Entries(bits, values)[key := value]
  {
    KeysUpdated(bits, key, true);
  }

  lemma EntriesResized(bits: seq<bool>, values: seq<Tag>, n: nat)
    requires |bits| == |values| <= n
    ensures KeysOf(Resized(bits, n, false)) == KeysOf(bits)
    ensures Entries(Resized(bits, n, false), Resized(values, n, 0)) == Entries(bits, values)
  {
    assert KeysOf(Resized(bits, n, false)) == KeysOf(bits);
  }

  class NaturalNumberMap {
    var size: nat
    var values: seq<Tag>
    var bits: seq<bool>

    ghost function Keys(): set<nat>
      reads this
    {
      KeysOf(bits)
    }

    ghost predicate Valid()
      reads this
    {
      |values| == |bits| && size == |Keys()|
    }

    ghost function Contents(): map<nat, Tag>
      reads this
      requires Valid()
    {
      Entries(bits, values)
    }

    constructor ()
      ensures Valid() && Contents() == map[]
    {
      size, values, bits := 0, [], [];
    }

    // Room for key.
    method Grow(key: nat)
      requires Valid()
      modifies this
      ensures Valid() && Contents() == old(Contents()) && key < |bits|
    {
      if key >= |bits| {
        EntriesResized(bits, values, key + 1);
        bits := Resized(bits, key + 1, false);
        values := Resized(values, key + 1, 0);
      }
    }

    method Set(key: nat, value: Tag)
      requires Valid()
      modifies this
      ensures Valid() && Contents() == old(Contents())[key := value]
    {
      Grow(key);
      EntriesPut(bits, values, key, value);
      KeysUpdated(bits, key, true);
      values := values[key := value];
      var wasPresent := bits[key];
      bits := bits[key := true];
      if !wasPresent {
        size := size + 1;
      }
    }

    method Erase(key: nat)
      requires Valid()
      modifies this
      ensures Valid() && Contents() == old(Contents()) - {key}
    {
      if key < |bits| {
        var wasPresent := bits[key];
        KeysUpdated(bits, key, false);
        bits := bits[key := false];
        if wasPresent {
          size := size - 1;
        }
      }
    }

    predicate Contains(key: nat)
      reads this
    {
      key < |bits| && bits[key]
    }

    method TryGet(key: nat) returns (r: Option<Tag>)
      requires Valid()
      ensures r == if key in Contents() then Some(Contents()[key]) else None
    {
      if !Contains(key) {
        return None;
      }
      return Some(values[key]);
    }

    method Clear()
      modifies this
      ensures Valid() && Contents() == map[]
    {
      size, values, bits := 0, [], [];
    }

    // boost::dynamic_bitset::find_first / find_next: the least set bit at or after `from`.
    function NextBit(from: nat): (r: Option<nat>)
      reads this
      ensures r.Some? ==> from <= r.value < |bits| && bits[r.value] && forall k :: from <= k < r.value ==> !bits[k]
      ensures r.None? ==> forall k :: from <= k < |bits| ==> !bits[k]
      decreases |bits| - from
    {
      if from >= |bits| then None else if bits[from] then Some(from) else NextBit(from + 1)
    }

    // A position handed out by the enumeration: a key, and how many keys come before it.
    ghost predicate At(pos: Position)
      reads this
    {
      pos.key.Some? ==> pos.key.value in Keys() && pos.enumerated == |set k | k in Keys() && k < pos.key.value|
    }

    // The enumeration visits the keys in increasing order and misses none.
    method FindFirst() returns (pos: Position)
      requires Valid()
      ensures At(pos)
      ensures pos.key.Some? ==> forall k :: k in Keys() ==> pos.key.value <= k
      ensures pos.key.None? ==> Keys() == {}
    {
      pos := Position(if size > 0 then NextBit(0) else None, 0);
      if pos.key.Some? {
        assert (set k | k in Keys() && k < pos.key.value) == {};
      }
    }

    method FindNext(after: Position) returns (pos: Position)
      requires Valid() && after.key.Some? && At(after)
      ensures At(pos)
      ensures pos.key.Some? ==> after.key.value < pos.key.value
      ensures pos.key.Some? ==> forall k :: k in Keys() && k > after.key.value ==> pos.key.value <= k
      ensures pos.key.None? ==> forall k :: k in Keys() ==> k <= after.key.value
    {
      ghost var below := set k | k in Keys() && k < after.key.value;
      assert after.enumerated < size by {
        assert below + {after.key.value} <= Keys() && after.key.value !in below;
        CardLe(below + {after.key.value}, Keys());
      }
      pos := Position(if after.enumerated < size then NextBit(after.key.value + 1) else None, after.enumerated + 1);
      if pos.key.Some? {
        assert (set k | k in Keys() && k < pos.key.value) == below + {after.key.value};
      }
    }
  }
}
