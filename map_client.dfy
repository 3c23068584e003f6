/** A client of the map: what callers can conclude from the contracts alone. */
module MapClient {
  import opened Maybe
  import opened Map

  /** One bucket for everything: two colliding keys are both retrievable. */
  method CollidingKeys() {
    var m := new MapImpl<int, int>((k: int) => 0 as u32, 1);
    m.Put(1, 10);
    m.Put(2, 20);
    assert m.Get(1) == Some(10);
    assert m.Get(2) == Some(20);
    assert m.Size() == 2;
  }

  /** A duplicate key accumulates; Get sees the earliest entry, Remove takes it out first. */
  method DuplicateKey() {
    var m := new MapImpl<int, int>((k: int) => 0 as u32, 1);
    m.Put(1, 10);
    m.Put(1, 30);
    assert m.Get(1).HasValue() && m.Get(1).Value() == 10;
    assert m.Size() == 2;
    var removed := m.Remove(1);
    assert removed && m.Get(1) == Some(30);
    removed := m.Remove(1);
    assert removed && m.Get(1) == None;
    removed := m.Remove(1);
    assert !removed && m.Size() == 0;
  }
}
