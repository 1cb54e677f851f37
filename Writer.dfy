/** The write phase of the scanner (`write_address` and the final loop of `main`,
    src/cheat.cpp): the new value's pattern is copied into a local buffer and
    sent to each candidate address with one `process_vm_writev` of one iovec.
    The model assumes that each such write lands completely or not at all. The
    kernel instead writes the part of the window before the first unwritable
    page and returns that count; a 4-byte window at a 4-aligned offset of a
    page-aligned region never crosses a page, so for the scanner's own
    addresses the two agree. */
module Writer {
  import opened Bytes

  /** The bytes of the target process that a write may reach, by address.
      An address that is unmapped or not writable is not a key. */
  type Memory = map<nat, byte>

  /** Every byte of the window `[addr, addr + n)` can be written. */
  predicate Writable(mem: Memory, addr: nat, n: nat) {
    forall x :: addr <= x < addr + n ==> x in mem
  }

  /** `x` lies in the window of `n` bytes at `addr`. */
  predicate InWindow(x: nat, addr: nat, n: nat) {
    addr <= x < addr + n
  }

  /** `mem` with the window at `addr` overwritten by `value`. */
  function Store(mem: Memory, addr: nat, value: seq<byte>): (r: Memory)
    ensures r.Keys == mem.Keys
    ensures forall x :: x in mem && !InWindow(x, addr, |value|) ==> r[x] == mem[x]
    ensures forall x :: x in mem && InWindow(x, addr, |value|) ==> r[x] == value[x - addr]
  {
    map x | x in mem :: if InWindow(x, addr, |value|) then value[x - addr] else mem[x]
  }

  /** What one `process_vm_writev` call leaves: the target's memory and the
      count it returns. */
  datatype Written = Written(mem: Memory, nwrite: int)

  /** `process_vm_writev(pid, local, 1, remote, 1, 0)` with one iovec of `|value|`
      bytes, under the all-or-nothing assumption above: the whole window is
      written and its length returned, or nothing is written and -1 returned. */
  function ProcessVmWritev(mem: Memory, value: seq<byte>, addr: nat): (r: Written)
    ensures r.mem.Keys == mem.Keys
    ensures r.nwrite == -1 <==> exists x :: addr <= x < addr + |value| && x !in mem
    ensures r.nwrite == -1 ==> r.mem == mem
    ensures r.nwrite != -1 ==> r.nwrite == |value|
    ensures r.nwrite != -1 ==> forall x :: addr <= x < addr + |value| ==> x in r.mem && r.mem[x] == value[x - addr]
    ensures forall x :: x in mem && !InWindow(x, addr, |value|) ==> r.mem[x] == mem[x]
  {
    if Writable(mem, addr, |value|) then Written(Store(mem, addr, value), |value|)
    else Written(mem, -1)
  }

  /** `write_address(pid, value, addr)`: copies `value` into a fresh buffer, then
      writes the buffer to `addr`. */
  method WriteAddress(mem: Memory, value: seq<byte>, addr: u64) returns (mem': Memory, nwrite: int)
    ensures Written(mem', nwrite) == ProcessVmWritev(mem, value, addr)
  {
    var buf := new byte[|value|];
    var i := 0;
    while i < |value|
      invariant 0 <= i <= |value|
      invariant buf[..i] == value[..i]
    {
      buf[i] := value[i];
      i := i + 1;
    }
    assert buf[..] == value;
    var r := ProcessVmWritev(mem, buf[..], addr);
    mem', nwrite := r.mem, r.nwrite;
  }

  /** The memory after `write_address` has been called on each of `addrs`, in
      order; a failed write leaves the memory as it was and the loop goes on.
      Writing never maps or unmaps anything. */
  function StoreAll(mem: Memory, value: seq<byte>, addrs: seq<u64>): (r: Memory)
    ensures r.Keys == mem.Keys
  {
    if addrs == [] then mem else StoreAll(ProcessVmWritev(mem, value, addrs[0]).mem, value, addrs[1..])
  }

  /** `for (i < addrs.size()) write_address(pid, to_find, addrs[i])`. */
  method WriteAll(mem: Memory, value: seq<byte>, addrs: seq<u64>) returns (mem': Memory)
    ensures mem' == StoreAll(mem, value, addrs)
  {
    mem' := mem;
    for k := 0 to |addrs|
      invariant StoreAll(mem', value, addrs[k..]) == StoreAll(mem, value, addrs)
    {
      assert addrs[k..][0] == addrs[k] && addrs[k..][1..] == addrs[k + 1..];
      var nwrite;
      mem', nwrite := WriteAddress(mem', value, addrs[k]);
    }
  }

  // ----- lemmas -----

  /** A byte outside every candidate's window keeps its value. */
  lemma {:induction false} StoreAllOutside(mem: Memory, value: seq<byte>, addrs: seq<u64>, x: nat)
    requires x in mem
    requires forall k :: 0 <= k < |addrs| ==> !InWindow(x, addrs[k], |value|)
    ensures x in StoreAll(mem, value, addrs) && StoreAll(mem, value, addrs)[x] == mem[x]
  {
    if addrs != [] {
      var mem1 := ProcessVmWritev(mem, value, addrs[0]).mem;
      StoreAllOutside(mem1, value, addrs[1..], x);
    }
  }

  /** After the write loop, candidate k holds the new pattern when its whole
      window is writable and no later candidate's window covers it; a candidate
      whose write failed does not stop the ones after it. */
  lemma {:induction false} StoreAllReadBack(mem: Memory, value: seq<byte>, addrs: seq<u64>, k: nat, i: nat)
    requires k < |addrs| && i < |value|
    requires Writable(mem, addrs[k], |value|)
    requires forall j :: k < j < |addrs| ==> !InWindow(addrs[k] + i, addrs[j], |value|)
    ensures addrs[k] + i in StoreAll(mem, value, addrs)
    ensures StoreAll(mem, value, addrs)[addrs[k] + i] == value[i]
  {
    var mem1 := ProcessVmWritev(mem, value, addrs[0]).mem;
    assert addrs[k] + i in mem;
    if k == 0 {
      StoreAllOutside(mem1, value, addrs[1..], addrs[0] + i);
    } else {
      StoreAllReadBack(mem1, value, addrs[1..], k - 1, i);
    }
  }
}
