/**
 Client code: the scenarios of the repository's example tests, proved from
 the contracts of the `Multiset` class alone. Each expected listing is stated
 as the multiset of the returned slice, since the order of a slice is not
 specified.
 */
module MultisetClient {
  import opened Multiset

  method ExampleNew() {
    var m := new Multiset<string>.New(["a", "a", "b"]);
    var list := m.ToSlice();
    assert multiset(list) == multiset{"a", "a", "b"};
  }

  method ExampleAdd() {
    var m := new Multiset<string>.New(["a", "a", "a"]);
    m.Add(["b", "b", "c", "d"]);
    var list := m.ToSlice();
    assert multiset(list) == multiset{"a", "a", "a", "b", "b", "c", "d"};
  }

  method ExampleAddCount() {
    var m := new Multiset<string>.New([]);
    var before := m.AddCount("d", 1);
    assert before == 0;
    before := m.AddCount("a", 3);
    before := m.AddCount("c", 1);
    before := m.AddCount("b", 2);
    assert m.Count("a") == 3 && m.Count("b") == 2 && m.Count("c") == 1 && m.Count("d") == 1;
    before := m.AddCount("a", -5);
    assert before == 3 && m.Count("a") == 3;
  }

  method ExampleContainsAndCount() {
    var m := new Multiset<string>.New(["b", "b", "c", "d"]);
    var b := m.Contains(["b", "c", "d"]);
    assert b;
    var none := m.Contains([]);
    assert none;
    assert m.Count("b") == 2 && m.Count("a") == 0;
    var size := m.Size();
    assert size == 4;
    var empty := m.IsEmpty();
    assert !empty;
  }

  method ExampleEquals() {
    var m1 := new Multiset<string>.New(["b", "b", "c", "d"]);
    var m2 := new Multiset<string>.New(["c", "b", "d", "b"]);
    var eq := m1.Equals(m2);
    assert eq;
    var back := m2.Equals(m1);
    assert back;
  }

  method ExampleClear() {
    var m := new Multiset<string>.New(["b", "b", "c", "d"]);
    m.Clear();
    var list := m.ToSlice();
    assert list == [];
    var size := m.Size();
    assert size == 0;
  }

  method ExampleRemove() {
    var m := new Multiset<string>.New(["a", "a", "a", "b", "b"]);
    var changed := m.Remove(["a", "a"]);
    assert changed;
    var list := m.ToSlice();
    assert multiset(list) == multiset{"a", "b", "b"};
  }

  /** Removing the last occurrence empties the slot but reports false. */
  method ExampleRemoveLast() {
    var m := new Multiset<string>.New(["a"]);
    assert m.Contents() == multiset{"a"};
    var changed := m.Remove(["a"]);
    assert !changed;
    assert m.Count("a") == 0;
    var present := m.Contains(["a"]);
    assert "a" in ["a"];
    assert !present;
  }

  method ExampleRemoveCount() {
    var m := new Multiset<string>.New(["a", "a", "a", "b", "b"]);
    var before := m.RemoveCount("a", 3);
    assert before == 3;
    var list := m.ToSlice();
    assert multiset(list) == multiset{"b", "b"};
  }

  method ExampleDistinctElements() {
    var m := new Multiset<string>.New([]);
    var before := m.AddCount("a", 3);
    before := m.AddCount("b", 2);
    var distinct := m.DistinctElements();
    assert multiset(distinct) == multiset{"a", "b"};
  }
}
