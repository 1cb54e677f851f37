/** The interactive session of `main` (src/cheat.cpp): round after round the
    user types the value the target now holds; the first round searches every
    region of the maps file, each later round only the 4-byte windows at the
    addresses the previous round found. The rounds end when one address is left,
    when a round finds as many addresses as the one before, when nothing is found,
    or when the user asks to set the values; the new value is then written to
    every address of the last round. */
module Session {
  import opened Bytes
  import opened Maps
  import opened Scan
  import opened Writer

  /** `num_size`: the width of the values searched for and written. */
  const NUM_SIZE: nat := 4

  /** The record `main` builds for a found address: a 4-byte region starting
      there. Its inode is left uninitialised by the source and its names are
      empty strings; nothing reads them. */
  function PseudoMapping(a: u64): (m: MemoryMapping)
    ensures m.addrBegin == a && m.size == NUM_SIZE
    ensures a + NUM_SIZE < ULL_MOD ==> m.addrEnd == a + NUM_SIZE
  {
    MemoryMapping(a, (a + NUM_SIZE) % ULL_MOD, NUM_SIZE, 0, "", "", "")
  }

  function PseudoMappings(addrs: seq<u64>): (r: seq<MemoryMapping>)
    ensures |r| == |addrs|
  {
    if addrs == [] then [] else [PseudoMapping(addrs[0])] + PseudoMappings(addrs[1..])
  }

  /** `mappings.clear()` followed by one `push_back(cur)` per found address. */
  method Rebuild(addrs: seq<u64>) returns (mappings: seq<MemoryMapping>)
    ensures mappings == PseudoMappings(addrs)
    ensures forall k :: 0 <= k < |addrs| ==> mappings[k].addrBegin == addrs[k] && mappings[k].size == NUM_SIZE
  {
    mappings := [];
    for i := 0 to |addrs|
      invariant mappings + PseudoMappings(addrs[i..]) == PseudoMappings(addrs)
    {
      assert addrs[i..][0] == addrs[i] && addrs[i..][1..] == addrs[i + 1..];
      var cur := PseudoMapping(addrs[i]);
      mappings := mappings + [cur];
    }
    PseudoMappingsAt(addrs);
  }

  /** What the user supplies for one round: the number typed, what the target's
      memory then yields to each read, and the answer to "(s) Set values;
      (c) Continue" if the round asks it. */
  datatype RoundInput = RoundInput(value: int, reader: MemoryMapping -> Transfer, option: char)

  /** The number is an `int` and every read of the round is defined. */
  ghost predicate RoundOk(r: RoundInput) {
    && INT_MIN <= r.value <= INT_MAX
    && forall m: MemoryMapping :: ReadFits(r.reader(m), m, NUM_SIZE)
  }

  /** How the rounds end: nothing found (the program returns without writing),
      the addresses to write the new value to, or the input running out inside
      the loop. */
  datatype Outcome = NotFound | SetValues(addrs: seq<u64>) | InputEnded

  /** The pattern searched for in a round. */
  function Needle(r: RoundInput): (n: seq<byte>)
    requires RoundOk(r)
    ensures |n| == NUM_SIZE
  {
    Encode(ToULL(r.value), NUM_SIZE)
  }

  /** The loop of `main` from a round whose regions are `mappings` and whose
      predecessor found `last` addresses (-1 before the first round). `last` is
      compared with a `size_t`, so -1 equals no count. Whenever the rounds end
      in a write, there is at least one address, so printing `addrs[0]` is
      defined. */
  function Run(mappings: seq<MemoryMapping>, last: int, rounds: seq<RoundInput>): (o: Outcome)
    requires forall k :: 0 <= k < |rounds| ==> RoundOk(rounds[k])
    ensures o.SetValues? && (last == -1 || last >= 2) ==> |o.addrs| > 0
    decreases |rounds|
  {
    if rounds == [] then InputEnded
    else
      var r := rounds[0];
      var addrs := RoundMatches(Needle(r), mappings, r.reader);
      if |addrs| == 1 || last == |addrs| then SetValues(addrs)
      else if |addrs| == 0 then NotFound
      else if r.option == 's' then SetValues(addrs)
      else Run(PseudoMappings(addrs), |addrs|, rounds[1..])
  }

  /** One pass of the loop body up to the stop test: the pattern of the number
      typed, every region searched for it, then `mappings` rebuilt from what was
      found. */
  method SearchRound(mappings: seq<MemoryMapping>, r: RoundInput)
    returns (addrs: seq<u64>, mappings': seq<MemoryMapping>)
    requires RoundOk(r)
    ensures addrs == RoundMatches(Needle(r), mappings, r.reader)
    ensures mappings' == PseudoMappings(addrs)
  {
    var toFind := Split(ToULL(r.value), NUM_SIZE, []);
    assert toFind == Needle(r);
    addrs := ScanRegions(toFind, mappings, r.reader, []);
    mappings' := Rebuild(addrs);
  }

  /** Run unfolded once at round k. */
  lemma RunStep(mappings: seq<MemoryMapping>, last: int, rounds: seq<RoundInput>, k: nat)
    requires forall j :: 0 <= j < |rounds| ==> RoundOk(rounds[j])
    requires k < |rounds|
    ensures var r := rounds[k];
            var addrs := RoundMatches(Needle(r), mappings, r.reader);
            Run(mappings, last, rounds[k..])
            == (if |addrs| == 1 || last == |addrs| then SetValues(addrs)
                else if |addrs| == 0 then NotFound
                else if r.option == 's' then SetValues(addrs)
                else Run(PseudoMappings(addrs), |addrs|, rounds[k + 1..]))
  {
    assert rounds[k..][0] == rounds[k] && rounds[k..][1..] == rounds[k + 1..];
  }

  /** `main` once `mappings` holds the regions of the maps file: the rounds, then
      `setValue` written to every address of the last round. `mem` is the target's
      writable memory at the write phase. */
  method RunSession(initial: seq<MemoryMapping>, rounds: seq<RoundInput>, setValue: int, mem: Memory)
    returns (outcome: Outcome, mem': Memory)
    requires forall k :: 0 <= k < |rounds| ==> RoundOk(rounds[k])
    requires INT_MIN <= setValue <= INT_MAX
    requires !Run(initial, -1, rounds).InputEnded?
    ensures outcome == Run(initial, -1, rounds)
    ensures outcome.NotFound? ==> mem' == mem
    ensures outcome.SetValues? ==> |outcome.addrs| > 0
    ensures outcome.SetValues? ==> mem' == StoreAll(mem, Encode(ToULL(setValue), NUM_SIZE), outcome.addrs)
  {
    var mappings := initial;
    var last := -1;
    var addrs: seq<u64> := [];
    var k := 0;
    outcome := InputEnded;
    while k < |rounds|
      invariant k <= |rounds|
      invariant last == -1 || last >= 2
      invariant outcome == InputEnded
      invariant Run(initial, -1, rounds) == Run(mappings, last, rounds[k..])
      decreases |rounds| - k
    {
      var r := rounds[k];
      RunStep(mappings, last, rounds, k);
      addrs, mappings := SearchRound(mappings, r);
      if |addrs| == 1 || last == |addrs| {
        outcome := SetValues(addrs);
        break;
      } else if |addrs| == 0 {
        return NotFound, mem;
      }
      if r.option == 's' {
        outcome := SetValues(addrs);
        break;
      }
      last := |addrs|;
      k := k + 1;
    }
    if outcome.InputEnded? {
      assert false;
    }
    var first := addrs[0];  // printed as "Found value at: 0x..."
    var newValue := Split(ToULL(setValue), NUM_SIZE, []);
    assert newValue == Encode(ToULL(setValue), NUM_SIZE);
    mem' := WriteAll(mem, newValue, addrs);
  }

  // ----- lemmas -----

  lemma {:induction false} PseudoMappingsAt(addrs: seq<u64>)
    ensures forall k :: 0 <= k < |addrs| ==> PseudoMappings(addrs)[k] == PseudoMapping(addrs[k])
  {
    if addrs != [] {
      PseudoMappingsAt(addrs[1..]);
    }
  }

  /** Whether the 4-byte window at `a` still holds the pattern when `reader`
      describes the target's memory. */
  predicate Hit(needle: seq<byte>, a: u64, reader: MemoryMapping -> Transfer) {
    var t := reader(PseudoMapping(a));
    0 < t.nread && WindowMatches(needle, t.buf, 0)
  }

  /** The addresses of `prev` whose window still holds the pattern, in order. */
  function Survivors(needle: seq<byte>, prev: seq<u64>, reader: MemoryMapping -> Transfer): seq<u64> {
    if prev == [] then []
    else (if Hit(needle, prev[0], reader) then [prev[0]] else []) + Survivors(needle, prev[1..], reader)
  }

  /** A read of `nread > 0` bytes compares a window that starts below it. */
  lemma ReadBelowWindowEnd(nread: int, w: nat)
    requires w > 0 && nread > 0
    ensures nread <= WindowEnd(nread, w)
  {
    var q := (nread + w - 1) / w;
    assert nread + w - 1 == q * w + (nread + w - 1) % w;
  }

  /** Searching the pseudo-mapping of one address finds that address exactly when
      its window still holds the pattern. */
  lemma PseudoRegion(needle: seq<byte>, a: u64, reader: MemoryMapping -> Transfer)
    requires |needle| == NUM_SIZE && ReadFits(reader(PseudoMapping(a)), PseudoMapping(a), NUM_SIZE)
    ensures RegionMatches(needle, PseudoMapping(a), reader(PseudoMapping(a)))
         == if Hit(needle, a, reader) then [a] else []
  {
    var t := reader(PseudoMapping(a));
    if 0 < t.nread {
      ReadBelowWindowEnd(t.nread, NUM_SIZE);
      assert MatchesFrom(needle, t, NUM_SIZE) == [];
      var head: seq<nat> := if WindowMatches(needle, t.buf, 0) then [0] else [];
      assert MatchesFrom(needle, t, 0) == head + [];
      assert head + [] == head;
      AddressesAt(PseudoMapping(a).addrBegin, head);
    }
  }

  /** A round after the first searches only the previous round's addresses, so
      it keeps exactly those whose window still holds the new pattern. */
  lemma {:induction false} PseudoRound(needle: seq<byte>, prev: seq<u64>, reader: MemoryMapping -> Transfer)
    requires |needle| == NUM_SIZE && forall m: MemoryMapping :: ReadFits(reader(m), m, NUM_SIZE)
    ensures RoundMatches(needle, PseudoMappings(prev), reader) == Survivors(needle, prev, reader)
  {
    if prev != [] {
      var ms := PseudoMappings(prev);
      assert ms[0] == PseudoMapping(prev[0]) && ms[1..] == PseudoMappings(prev[1..]);
      PseudoRegion(needle, prev[0], reader);
      PseudoRound(needle, prev[1..], reader);
    }
  }

  /** The survivors are a sub-list of the previous addresses: none is new, and
      keeping as many as before means keeping all of them. */
  lemma {:induction false} SurvivorsFilter(needle: seq<byte>, prev: seq<u64>, reader: MemoryMapping -> Transfer)
    ensures |Survivors(needle, prev, reader)| <= |prev|
    ensures forall x :: x in Survivors(needle, prev, reader) ==> x in prev
    ensures |Survivors(needle, prev, reader)| == |prev| ==> Survivors(needle, prev, reader) == prev
  {
    if prev != [] {
      SurvivorsFilter(needle, prev[1..], reader);
      var rest := Survivors(needle, prev[1..], reader);
      if Hit(needle, prev[0], reader) {
        assert Survivors(needle, prev, reader) == [prev[0]] + rest;
        if |rest| == |prev| - 1 {
          assert prev == [prev[0]] + prev[1..];
        }
      } else {
        assert Survivors(needle, prev, reader) == rest;
      }
    }
  }

  /** In a round after the first, "as many matches as last time" stops the
      search with exactly the previous addresses: every candidate still holds
      the new number, whatever the count. */
  lemma UnchangedCountKeepsAll(prev: seq<u64>, rounds: seq<RoundInput>)
    requires forall k :: 0 <= k < |rounds| ==> RoundOk(rounds[k])
    requires rounds != [] && |prev| >= 2
    requires |RoundMatches(Needle(rounds[0]), PseudoMappings(prev), rounds[0].reader)| == |prev|
    ensures Run(PseudoMappings(prev), |prev|, rounds) == SetValues(prev)
  {
    var r := rounds[0];
    PseudoRound(Needle(r), prev, r.reader);
    SurvivorsFilter(Needle(r), prev, r.reader);
  }

  /** From the second round on, the addresses written to are among those the
      previous round found. */
  lemma {:induction false} SetValuesFromPrevious(prev: seq<u64>, rounds: seq<RoundInput>)
    requires forall k :: 0 <= k < |rounds| ==> RoundOk(rounds[k])
    ensures Run(PseudoMappings(prev), |prev|, rounds).SetValues? ==>
      forall x :: x in Run(PseudoMappings(prev), |prev|, rounds).addrs ==> x in prev
    decreases |rounds|
  {
    if rounds != [] {
      var r := rounds[0];
      var addrs := RoundMatches(Needle(r), PseudoMappings(prev), r.reader);
      PseudoRound(Needle(r), prev, r.reader);
      SurvivorsFilter(Needle(r), prev, r.reader);
      if !(|addrs| == 1 || |prev| == |addrs|) && |addrs| != 0 && r.option != 's' {
        SetValuesFromPrevious(addrs, rounds[1..]);
      }
    }
  }

  /** The bytes at `a .. a + n` of `mem`. */
  function BytesAt(mem: Memory, a: nat, n: nat): (r: seq<byte>)
    requires Writable(mem, a, n)
    ensures |r| == n && forall i :: 0 <= i < n ==> r[i] == mem[a + i]
  {
    seq(n, i requires 0 <= i < n => mem[a + i])
  }

  /** After the write phase, an address whose window is writable and not covered
      by a later address's window reads back as the new value, as a 32-bit
      two's-complement number. */
  lemma SetValueReadsBack(mem: Memory, setValue: int, addrs: seq<u64>, k: nat)
    requires INT_MIN <= setValue <= INT_MAX
    requires k < |addrs| && Writable(mem, addrs[k], NUM_SIZE)
    requires forall j :: k < j < |addrs| ==> addrs[j] + NUM_SIZE <= addrs[k] || addrs[k] + NUM_SIZE <= addrs[j]
    ensures Writable(StoreAll(mem, Encode(ToULL(setValue), NUM_SIZE), addrs), addrs[k], NUM_SIZE)
    ensures Decode(BytesAt(StoreAll(mem, Encode(ToULL(setValue), NUM_SIZE), addrs), addrs[k], NUM_SIZE))
         == if setValue >= 0 then setValue else setValue + 0x1_0000_0000
  {
    var v := Encode(ToULL(setValue), NUM_SIZE);
    var after := StoreAll(mem, v, addrs);
    forall i | 0 <= i < NUM_SIZE
      ensures after[addrs[k] + i] == v[i]
    {
      StoreAllReadBack(mem, v, addrs, k, i);
    }
    assert BytesAt(after, addrs[k], NUM_SIZE) == v;
    InputRoundTrip(setValue);
  }
}
