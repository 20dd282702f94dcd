/** The linked thread table, proved to be a finite map with ever fresh keys. */
module ThreadTable {

  class Tcb {
    var tid: int
    var handle: Handle?

    constructor ()
      ensures handle == null
    {
      tid, handle := -1, null;
    }
  }

  class Handle {
    var tcb: Tcb
    var id: nat
    var next: Handle?

    constructor (tcb: Tcb, id: nat, next: Handle?)
      ensures this.tcb == tcb && this.id == id && this.next == next
    {
      this.tcb, this.id, this.next := tcb, id, next;
    }
  }

  function Without<T>(s: seq<T>, i: nat): (r: seq<T>)
    requires i < |s|
    ensures |r| == |s| - 1
    ensures forall j :: 0 <= j < |r| ==> r[j] == if j < i then s[j] else s[j + 1]
  {
    s[..i] + s[i + 1..]
  }

  class Table {
    var head: Handle?
    var maxId: nat
    var size: int
    ghost var handles: seq<Handle>
    ghost var entries: map<nat, Tcb>    // the finite map that the list stands for
    ghost var freed: set<Handle>        // handles that were given back

    /** The list from `head` is `handles`. */
    ghost predicate Chained()
      reads this`head, this`handles, handles
    {
      && head == (if handles == [] then null else handles[0])
      && (handles != [] ==> handles[|handles| - 1].next == null)
      && (forall i, j :: 0 <= i < j < |handles| && j == i + 1 ==> handles[i].next == handles[j])
    }

    /** The ids are strictly descending, and below maxId. */
    ghost predicate Descending()
      reads this`maxId, this`handles, handles
    {
      && (forall i, j :: 0 <= i < j < |handles| ==> handles[i].id > handles[j].id)
      && (handles != [] ==> handles[0].id < maxId)
    }

    ghost predicate Linked()
      reads this`head, this`maxId, this`size, this`handles, handles
    {
      Chained() && Descending() && size == |handles|
    }

    /** The handle of the thread with this id. */
    ghost predicate Entry(handle: Handle, id: nat)
      reads this`entries, handle, entries.Values
    {
      && id in entries && handle.id == id && handle.tcb == entries[id]
      && entries[id].handle == handle && entries[id].tid == id
    }

    /** The thread is not in the table. */
    ghost predicate Foreign(tcb: Tcb)
      reads this`entries
    {
      forall k :: k in entries ==> entries[k] != tcb
    }

    ghost predicate Valid()
      reads this, handles, entries.Values
    {
      && Linked()
      && (forall i {:trigger Entry(handles[i], handles[i].id)} :: 0 <= i < |handles| ==> Entry(handles[i], handles[i].id))
      && (forall i :: 0 <= i < |handles| ==> handles[i] !in freed)
      && (forall k :: k in entries ==> entries[k].handle in handles && Entry(entries[k].handle, k))
    }

    constructor ()
      ensures Valid() && entries == map[] && maxId == 0
    {
      head, maxId, size := null, 0, 0;
      handles, entries, freed := [], map[], {};
    }

    /** The new thread gets an id that no thread ever had.  A handle that it still has is freed;
        the table survives that exactly when the handle is not one of its own. */
    method Put(tcb: Tcb) returns (r: int)
      requires Valid()
      modifies this, tcb
      ensures Valid() <==> old(tcb.handle) == null || old(tcb.handle) !in old(handles)
      ensures r == 0 && tcb.tid == old(maxId) && maxId == old(maxId) + 1 && size == old(size) + 1
      ensures old(maxId) !in old(entries) && entries == old(entries)[old(maxId) := tcb]
    {
      FreshId();
      var handle := new Handle(tcb, maxId, head);
      tcb.tid := maxId;
      head, maxId, size := handle, maxId + 1, size + 1;
      if tcb.handle != null { freed := freed + {tcb.handle}; }
      tcb.handle := handle;
      entries, handles := entries[handle.id := tcb], [handle] + handles;
      if old(tcb.handle) == null || old(tcb.handle) !in old(handles) {
        PutKeepsValid(handle, tcb);
      } else {
        FreedHandleIsListed(handle, tcb);
      }
      return 0;
    }

    twostate lemma PutKeepsValid(new handle: Handle, tcb: Tcb)
      requires old(Valid()) && (old(tcb.handle) == null || old(tcb.handle) !in old(handles))
      requires freed == old(freed) + if old(tcb.handle) == null then {} else {old(tcb.handle)}
      requires handle !in old(handles) && handle !in freed && (forall h :: h in old(handles) ==> unchanged(h))
      requires forall k :: k in old(entries) && old(entries)[k] != tcb ==> unchanged(old(entries)[k])
      requires handle.tcb == tcb && handle.id == old(maxId) && handle.next == old(head)
      requires tcb.tid == old(maxId) && tcb.handle == handle
      requires old(maxId) !in old(entries)
      requires entries == old(entries)[old(maxId) := tcb] && handles == [handle] + old(handles)
      requires head == handle && maxId == old(maxId) + 1 && size == old(size) + 1
      ensures Valid()
    {
      PutKeepsLinked(handle);
      PutKeepsEntries(handle, tcb);
    }

    twostate lemma PutKeepsLinked(new handle: Handle)
      requires old(Linked()) && (forall h :: h in old(handles) ==> unchanged(h))
      requires handle.id == old(maxId) && handle.next == old(head) && handles == [handle] + old(handles)
      requires head == handle && maxId == old(maxId) + 1 && size == old(size) + 1
      ensures Linked()
    {
      var was := old(handles);
      forall i | 0 <= i < |was| ensures was[i].next == old(was[i].next) && was[i].id == old(was[i].id) {
        assert was[i] in was;
      }
      forall i, j | 0 <= i < j < |handles| && j == i + 1 ensures handles[i].next == handles[j] {
        assert handles[j] == was[i] && (i > 0 ==> handles[i] == was[i - 1]);
      }
      forall i, j | 0 <= i < j < |handles| ensures handles[i].id > handles[j].id {
        assert handles[j] == was[j - 1] && (i > 0 ==> handles[i] == was[i - 1]);
      }
      assert was != [] ==> handles[|handles| - 1] == was[|was| - 1];
    }

    twostate lemma PutKeepsEntries(new handle: Handle, tcb: Tcb)
      requires old(Valid()) && (old(tcb.handle) == null || old(tcb.handle) !in old(handles))
      requires freed == old(freed) + if old(tcb.handle) == null then {} else {old(tcb.handle)}
      requires handle !in old(handles) && handle !in freed && (forall h :: h in old(handles) ==> unchanged(h))
      requires forall k :: k in old(entries) && old(entries)[k] != tcb ==> unchanged(old(entries)[k])
      requires handle.tcb == tcb && handle.id == old(maxId) && tcb.tid == old(maxId) && tcb.handle == handle
      requires old(maxId) !in old(entries)
      requires entries == old(entries)[old(maxId) := tcb] && handles == [handle] + old(handles)
      ensures forall i {:trigger Entry(handles[i], handles[i].id)} :: 0 <= i < |handles| ==> Entry(handles[i], handles[i].id)
      ensures forall i :: 0 <= i < |handles| ==> handles[i] !in freed
      ensures forall k :: k in entries ==> entries[k].handle in handles && Entry(entries[k].handle, k)
    {
      forall i | 0 <= i < |handles| ensures Entry(handles[i], handles[i].id) && handles[i] !in freed {
        if i > 0 {
          assert handles[i] == old(handles)[i - 1];
          assert old(Entry(handles[i - 1], handles[i - 1].id));
        }
      }
      forall k | k in entries ensures entries[k].handle in handles && Entry(entries[k].handle, k) {
        if k != handle.id {
          assert old(Entry(entries[k].handle, k));
        }
      }
    }

    twostate lemma FreedHandleIsListed(new handle: Handle, tcb: Tcb)
      requires old(tcb.handle) != null && old(tcb.handle) in old(handles)
      requires old(tcb.handle) in freed && handles == [handle] + old(handles)
      ensures !Valid()
    {
      var i :| 0 <= i < |old(handles)| && old(handles)[i] == old(tcb.handle);
      assert handles[i + 1] == old(tcb.handle);
    }

    /** Where the handle of an entry is. */
    lemma Position(k: nat) returns (i: nat)
      requires Valid() && k in entries
      ensures i < |handles| && handles[i] == entries[k].handle && handles[i].id == k
    {
      assert Entry(entries[k].handle, k);
      i :| 0 <= i < |handles| && handles[i] == entries[k].handle;
    }

    lemma FreshId()
      requires Valid()
      ensures maxId !in entries
    {
      if maxId in entries { var i := Position(maxId); }
    }

    /** The search stops early, at the first id that is not above the target. */
    method GetById(target: nat) returns (r: Tcb?)
      requires Valid()
      ensures r == if target in entries then entries[target] else null
    {
      var ptr := head;
      ghost var i := 0;
      while ptr != null && ptr.id > target
        invariant 0 <= i <= |handles| && ptr == if i < |handles| then handles[i] else null
        invariant forall j :: 0 <= j < i ==> handles[j].id > target
        decreases |handles| - i
      {
        ptr := ptr.next;
        i := i + 1;
      }
      if ptr == null || ptr.id != target {
        assert forall j :: 0 <= j < |handles| ==> handles[j].id != target;
        if target in entries { var j := Position(target); }
        return null;
      }
      assert Entry(handles[i], handles[i].id);
      return ptr.tcb;
    }

    /** Takes out the newest thread. */
    method Pop() returns (r: Tcb?)
      requires Valid()
      modifies this, entries.Values
      ensures Valid() && maxId == old(maxId)
      ensures old(entries) == map[] ==> r == null && entries == map[] && size == old(size)
      ensures old(entries) != map[] ==>
        && r != null && r.handle == null
        && r.tid in old(entries) && old(entries)[r.tid] == r
        && (forall k :: k in old(entries) ==> k <= r.tid)
        && entries == old(entries) - {r.tid} && size == old(size) - 1
    {
      if head == null {
        forall k ensures k !in entries { if k in entries { var i := Position(k); } }
        return null;
      }
      assert Entry(handles[0], handles[0].id);
      forall k | k in entries ensures k <= handles[0].id { var i := Position(k); }
      r := head.tcb;
      Unlink(null, head, r, 0);
    }

    /** Takes out the entry that has the id of the thread's handle; for a handle of this table
        that is the thread's own. */
    method Remove(tcb: Tcb) returns (r: int)
      requires Valid()
      modifies this, handles, tcb
      ensures Valid() && tcb.tid == old(tcb.tid) && maxId == old(maxId)
      ensures old(tcb.handle) == null ==> r == -1
      ensures old(tcb.handle) != null ==>
        r == if old(tcb.handle.id) in old(entries) then 0 else -2
      ensures r != 0 ==> entries == old(entries) && size == old(size) && tcb.handle == old(tcb.handle)
      ensures r == 0 ==> tcb.handle == null && entries == old(entries) - {old(tcb.handle.id)} && size == old(size) - 1
      ensures old(tcb.handle) != null && old(tcb.handle) in old(handles) && old(tcb.handle.tcb) == tcb ==>
        r == 0 && old(tcb.handle.id) == tcb.tid
    {
      if tcb.handle == null {
        return -1;
      }
      OwnHandle(tcb);
      r := RemoveEntry(tcb, tcb.handle.id);
    }

    method RemoveEntry(tcb: Tcb, target: nat) returns (r: int)
      requires Valid() && forall k :: k in entries && entries[k] == tcb ==> k == target
      modifies this`head, this`size, this`handles, this`entries, this`freed, handles, tcb`handle
      ensures Valid()
      ensures target !in old(entries) ==> r == -2 && entries == old(entries) && size == old(size) && tcb.handle == old(tcb.handle)
      ensures target in old(entries) ==>
        r == 0 && entries == old(entries) - {target} && size == old(size) - 1 && tcb.handle == null
    {
      var prev, ptr, i := Find(target);
      if ptr == null {
        return -2;
      }
      Unlink(prev, ptr, tcb, i);
      return 0;
    }

    /** The handle with the given id, at position i, and the one before it. */
    method Find(target: nat) returns (prev: Handle?, ptr: Handle?, ghost i: nat)
      requires Valid()
      ensures ptr == null <==> target !in entries
      ensures ptr != null ==>
        && i < |handles| && ptr == handles[i] && prev == (if i == 0 then null else handles[i - 1])
        && ptr.id == target && ptr.tcb == entries[target]
    {
      prev, ptr, i := null, head, 0;
      while ptr != null && ptr.id > target
        invariant 0 <= i <= |handles| && ptr == if i < |handles| then handles[i] else null
        invariant prev == if i == 0 then null else handles[i - 1]
        invariant forall j :: 0 <= j < i ==> handles[j].id > target
        decreases |handles| - i
      {
        prev := ptr;
        ptr := ptr.next;
        i := i + 1;
      }
      if ptr == null || ptr.id != target {
        assert forall j :: 0 <= j < |handles| ==> handles[j].id != target;
        if target in entries { var j := Position(target); }
        return null, null, 0;
      }
      assert Entry(handles[i], target);
    }

    /** A thread of the table has the handle under its id. */
    lemma OwnHandle(tcb: Tcb)
      requires Valid() && tcb.handle != null
      ensures forall k :: k in entries && entries[k] == tcb ==> tcb.handle.id == k
      ensures tcb.handle in handles && tcb.handle.tcb == tcb ==> tcb.handle.id == tcb.tid && tcb.tid in entries
    {
      forall k | k in entries && entries[k] == tcb ensures tcb.handle.id == k {
        assert Entry(entries[k].handle, k);
      }
      if tcb.handle in handles {
        var j :| 0 <= j < |handles| && handles[j] == tcb.handle;
        assert Entry(handles[j], handles[j].id);
      }
    }

    /** Takes out the handle at position i, frees it and clears the handle of the given thread:
        the handle's own, or one that is not in the table. */
    method Unlink(prev: Handle?, ptr: Handle, tcb: Tcb, ghost i: nat)
      requires Valid() && i < |handles| && ptr == handles[i]
      requires prev == if i == 0 then null else handles[i - 1]
      requires tcb == ptr.tcb || Foreign(tcb)
      modifies this`head, this`size, this`handles, this`entries, this`freed
      modifies (if prev == null then {} else {prev as Handle})`next, tcb`handle
      ensures Valid() && size == old(size) - 1
      ensures tcb.handle == null && entries == old(entries) - {ptr.id}
    {
      Relink(prev, ptr, i);
      Forget(ptr, tcb);
    }

    /** Every handle on the list is that of its thread, and every thread but that of `gone` has one. */
    ghost predicate EntriesBut(gone: Handle)
      reads this`handles, this`entries, this`freed, handles, entries.Values, gone
    {
      && Entry(gone, gone.id)
      && (forall i {:trigger Entry(handles[i], handles[i].id)} :: 0 <= i < |handles| ==> Entry(handles[i], handles[i].id))
      && (forall i :: 0 <= i < |handles| ==> handles[i].id != gone.id && handles[i] !in freed)
      && (forall k :: k in entries && k != gone.id ==> entries[k].handle in handles && Entry(entries[k].handle, k))
    }

    method Forget(ptr: Handle, tcb: Tcb)
      requires Linked() && EntriesBut(ptr) && (tcb == ptr.tcb || Foreign(tcb))
      modifies this`entries, this`freed, tcb`handle
      ensures Valid() && tcb.handle == null && entries == old(entries) - {ptr.id}
    {
      OthersAreOthers(ptr, tcb);
      tcb.handle := null;
      entries := entries - {ptr.id};
      freed := freed + {ptr};
      ForgetKeepsValid(ptr);
    }

    lemma OthersAreOthers(ptr: Handle, tcb: Tcb)
      requires EntriesBut(ptr) && (tcb == ptr.tcb || Foreign(tcb))
      ensures forall k :: k in entries && k != ptr.id ==> entries[k] != tcb
    {
      forall k | k in entries && k != ptr.id ensures entries[k] != tcb {
        assert Entry(entries[k].handle, k);
      }
    }

    twostate lemma ForgetKeepsValid(ptr: Handle)
      requires old(Linked()) && head == old(head) && maxId == old(maxId) && size == old(size)
      requires old(EntriesBut(ptr)) && handles == old(handles) && entries == old(entries) - {old(ptr.id)}
      requires freed == old(freed) + {ptr}
      requires forall h :: h in handles ==> unchanged(h)
      requires forall k :: k in entries ==> unchanged(entries[k])
      ensures Valid()
    {
      forall i | 0 <= i < |handles| ensures Entry(handles[i], handles[i].id) && handles[i] !in freed {
        assert handles[i] in handles;
        assert old(Entry(handles[i], handles[i].id));
      }
      forall k | k in entries ensures entries[k].handle in handles && Entry(entries[k].handle, k) {
        assert old(Entry(entries[k].handle, k));
      }
    }

    /** Relinks the list around the handle at position i. */
    method Relink(prev: Handle?, ptr: Handle, ghost i: nat)
      requires Valid() && i < |handles| && ptr == handles[i]
      requires prev == if i == 0 then null else handles[i - 1]
      modifies this`head, this`size, this`handles, (if prev == null then {} else {prev as Handle})`next
      ensures Linked() && EntriesBut(ptr) && size == old(size) - 1
    {
      Distinct();
      Bypass(prev, ptr);
      size := size - 1;
      handles := Without(handles, i);
      RelinkKeeps(i);
    }

    twostate lemma RelinkKeeps(i: nat)
      requires old(Valid()) && i < |old(handles)| && handles == Without(old(handles), i)
      requires entries == old(entries) && freed == old(freed) && maxId == old(maxId) && size == old(size) - 1
      requires forall h :: h in old(handles) ==> h.id == old(h.id) && h.tcb == old(h.tcb)
      requires forall h :: h in old(handles) && !(i > 0 && h == old(handles)[i - 1]) ==> h.next == old(h.next)
      requires i > 0 ==> old(handles)[i - 1].next == old(handles[i].next) && head == old(head)
      requires i == 0 ==> head == old(handles[0].next)
      requires forall k :: k in old(entries) ==> unchanged(old(entries)[k])
      requires forall a, b :: 0 <= a < b < |old(handles)| ==> old(handles)[a] != old(handles)[b]
      ensures Linked() && EntriesBut(old(handles)[i])
    {
      RelinkKeepsChain(i);
      RelinkKeepsOrder(i);
      AllButOne(i);
    }

    method Bypass(prev: Handle?, ptr: Handle)
      requires prev != ptr
      modifies this`head, (if prev == null then {} else {prev as Handle})`next
      ensures if prev == null then head == old(ptr.next) else head == old(head) && prev.next == old(ptr.next)
    {
      if prev == null {
        head := ptr.next;
      } else {
        prev.next := ptr.next;
      }
    }

    lemma Distinct()
      requires Descending()
      ensures forall a, b :: 0 <= a < b < |handles| ==> handles[a] != handles[b]
    {}

    twostate lemma RelinkKeepsChain(i: nat)
      requires old(Chained()) && i < |old(handles)| && handles == Without(old(handles), i)
      requires forall h :: h in old(handles) && !(i > 0 && h == old(handles)[i - 1]) ==> h.next == old(h.next)
      requires i > 0 ==> old(handles)[i - 1].next == old(handles[i].next) && head == old(head)
      requires i == 0 ==> head == old(handles[0].next)
      requires forall a, b :: 0 <= a < b < |old(handles)| ==> old(handles)[a] != old(handles)[b]
      ensures Chained()
    {
      var was := old(handles);
      forall a, b | 0 <= a < b < |handles| && b == a + 1 ensures handles[a].next == handles[b] {
        if b < i {
          assert handles[a] == was[a] && handles[b] == was[b];
        } else if a < i {
          assert handles[a] == was[a] && handles[b] == was[b + 1];
        } else {
          assert handles[a] == was[a + 1] && handles[b] == was[b + 1];
        }
      }
    }

    twostate lemma RelinkKeepsOrder(i: nat)
      requires old(Descending()) && i < |old(handles)| && handles == Without(old(handles), i)
      requires forall h :: h in old(handles) ==> h.id == old(h.id)
      requires maxId == old(maxId)
      ensures Descending()
    {
      var was := old(handles);
      forall a, b | 0 <= a < b < |handles| ensures handles[a].id > handles[b].id {
        assert handles[a] == was[if a < i then a else a + 1];
        assert handles[b] == was[if b < i then b else b + 1];
      }
    }

    twostate lemma AllButOne(i: nat)
      requires old(Valid()) && i < |old(handles)| && handles == Without(old(handles), i) && entries == old(entries)
      requires freed == old(freed)
      requires forall h :: h in old(handles) ==> h.id == old(h.id) && h.tcb == old(h.tcb)
      requires forall k :: k in old(entries) ==> unchanged(old(entries)[k])
      ensures EntriesBut(old(handles)[i])
    {
      var was := old(handles);
      assert old(Entry(was[i], was[i].id));
      forall j | 0 <= j < |handles| ensures Entry(handles[j], handles[j].id) && handles[j].id != was[i].id && handles[j] !in freed {
        var j' := if j < i then j else j + 1;
        assert handles[j] == was[j'];
        assert old(Entry(was[j'], was[j'].id));
      }
      forall k | k in entries && k != was[i].id ensures entries[k].handle in handles && Entry(entries[k].handle, k) {
        assert old(Entry(entries[k].handle, k));
        var j :| 0 <= j < |was| && was[j] == old(entries[k].handle);
        assert handles[if j < i then j else j - 1] == was[j];
      }
    }
  }
}
