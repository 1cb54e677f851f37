/** The search of one round (`find_value` and the loop over `mappings` in
    `main`, src/cheat.cpp): each region is copied out of the target with one
    `process_vm_readv` into a buffer of the region's size, and only the windows at
    offsets 0, w, 2w, ... (w the pattern width) below the number of bytes read are
    compared with the pattern. */
module Scan {
  import opened Bytes
  import opened Maps

  /** What one `process_vm_readv` of a region leaves behind: `buf` is the whole
      local buffer (`new char[mapping.size]`), whose first `nread` bytes came from
      the target and whose rest is whatever the allocation held; `nread` is -1
      when the read failed. */
  datatype Transfer = Transfer(buf: seq<byte>, nread: int)

  /** The end of the last window the stride loop compares when `nread` bytes were
      read: windows start at 0, w, 2w, ... below `nread`. */
  function WindowEnd(nread: int, w: nat): nat
    requires w > 0
  {
    if nread <= 0 then 0 else ((nread + w - 1) / w) * w
  }

  /** What the source needs of a read for `find_value` to be defined: the buffer
      has the region's size, the count is -1 or a byte count, no compared window
      runs past the end of the buffer, and the `int` offset never overflows. */
  predicate ReadFits(t: Transfer, m: MemoryMapping, w: nat) {
    && w > 0
    && |t.buf| == m.size
    && -1 <= t.nread
    && WindowEnd(t.nread, w) <= m.size
    && WindowEnd(t.nread, w) <= INT_MAX
  }

  /** The comparison of the inner loop: `needle[j] == buf[i + j]` for every j. */
  predicate WindowMatches(needle: seq<byte>, buf: seq<byte>, i: nat) {
    i + |needle| <= |buf| && buf[i..i + |needle|] == needle
  }

  predicate Aligned(x: nat, w: nat)
    requires w > 0
  {
    x % w == 0
  }

  /** The offsets, from `i` on, at which the stride loop finds the pattern. */
  function MatchesFrom(needle: seq<byte>, t: Transfer, i: nat): (r: seq<nat>)
    requires |needle| > 0
    ensures r != [] ==> i <= r[0] < t.nread
    decreases if i < t.nread then t.nread - i else 0
  {
    if i >= t.nread then []
    else (if WindowMatches(needle, t.buf, i) then [i] else []) + MatchesFrom(needle, t, i + |needle|)
  }

  /** Absolute addresses `base + offset`, in unsigned 64-bit arithmetic. */
  function Addresses(base: nat, offsets: seq<nat>): (r: seq<u64>)
    ensures |r| == |offsets|
  {
    if offsets == [] then [] else [(base + offsets[0]) % ULL_MOD] + Addresses(base, offsets[1..])
  }

  /** Address k is offset k moved by `base`, wrapping at 2^64. */
  lemma {:induction false} AddressesAt(base: nat, offsets: seq<nat>)
    ensures forall k :: 0 <= k < |offsets| ==> Addresses(base, offsets)[k] == (base + offsets[k]) % ULL_MOD
  {
    if offsets != [] {
      AddressesAt(base, offsets[1..]);
      var r := Addresses(base, offsets);
      forall k | 0 < k < |offsets|
        ensures r[k] == (base + offsets[k]) % ULL_MOD
      {
        assert r[k] == Addresses(base, offsets[1..])[k - 1];
      }
    }
  }

  /** The addresses `find_value` appends for one region. */
  function RegionMatches(needle: seq<byte>, m: MemoryMapping, t: Transfer): seq<u64>
    requires |needle| > 0
  {
    Addresses(m.addrBegin, MatchesFrom(needle, t, 0))
  }

  // ----- arithmetic helpers -----

  lemma AlignedGap(i: nat, w: nat)
    requires w > 0 && Aligned(i, w)
    ensures forall x: nat :: Aligned(x, w) && x > i ==> x >= i + w
  {
    forall x: nat | Aligned(x, w) && x > i
      ensures x >= i + w
    {
      AlignedAbove(i, x, w);
    }
  }

  lemma AlignedAbove(i: nat, x: nat, w: nat)
    requires w > 0 && i % w == 0 && x % w == 0 && x > i
    ensures x >= i + w
  {
    var a, b := i / w, x / w;
    assert i == a * w && x == b * w;
    if b <= a {
      MulMono(a, b, w);
    } else {
      MulMono(b, a + 1, w);
      assert (a + 1) * w == a * w + w;
    }
  }

  lemma AlignedStep(i: nat, w: nat)
    requires w > 0 && Aligned(i, w)
    ensures Aligned(i + w, w)
  {
    assert i == (i / w) * w;
    DivModUnique(i + w, w, i / w + 1, 0);
  }

  /** Every window the stride loop compares lies inside the buffer. */
  lemma WindowInBuffer(t: Transfer, m: MemoryMapping, w: nat, i: nat)
    requires ReadFits(t, m, w) && Aligned(i, w) && i < t.nread
    ensures i + w <= |t.buf| && i + w <= INT_MAX
  {
    WindowBelowEnd(i, t.nread, w);
  }

  lemma WindowBelowEnd(i: nat, nread: int, w: nat)
    requires w > 0 && Aligned(i, w) && i < nread
    ensures i + w <= WindowEnd(nread, w)
  {
    var a, m := i / w, (nread + w - 1) / w;
    assert i == a * w;
    assert (a + 1) * w <= nread + w - 1;
    assert (nread + w - 1) == m * w + (nread + w - 1) % w;
    if a + 1 > m {
      MulMono(a + 1, m + 1, w);
    }
    MulMono(m, a + 1, w);
  }

  // ----- the search -----

  /** One step of the stride loop: the window at `i`, then the rest. */
  lemma AddressesStep(needle: seq<byte>, t: Transfer, base: nat, i: nat, out: seq<u64>, found: bool)
    requires |needle| > 0 && i < t.nread && found == WindowMatches(needle, t.buf, i)
    ensures out + Addresses(base, MatchesFrom(needle, t, i))
         == (out + if found then [(base + i) % ULL_MOD] else [])
            + Addresses(base, MatchesFrom(needle, t, i + |needle|))
  {
    var rest := MatchesFrom(needle, t, i + |needle|);
    if found {
      assert MatchesFrom(needle, t, i) == [i] + rest;
      assert ([i] + rest)[1..] == rest;
    } else {
      assert MatchesFrom(needle, t, i) == rest;
    }
  }

  /** The inner loop of `find_value`: compares the window at `i` with the needle
      byte by byte and stops at the first difference. */
  method CompareWindow(needle: seq<byte>, buf: seq<byte>, i: nat) returns (found: bool)
    requires i + |needle| <= |buf|
    ensures found == WindowMatches(needle, buf, i)
  {
    found := true;
    var j := 0;
    while j < |needle|
      invariant j <= |needle|
      invariant found ==> buf[i..i + j] == needle[..j]
      invariant !found ==> !WindowMatches(needle, buf, i)
    {
      if needle[j] != buf[i + j] {
        found := false;
        break;
      }
      j := j + 1;
    }
    assert found ==> j == |needle| && needle[..j] == needle;
  }

  /** One pass of the stride loop's body: compares the window at `i` and, on a
      match, appends `mapping.addr_begin + i`. */
  method CheckWindow(needle: seq<byte>, mapping: MemoryMapping, t: Transfer, i: nat, out: seq<u64>)
    returns (out': seq<u64>)
    requires ReadFits(t, mapping, |needle|) && Aligned(i, |needle|) && i < t.nread
    ensures out' + Addresses(mapping.addrBegin, MatchesFrom(needle, t, i + |needle|))
         == out + Addresses(mapping.addrBegin, MatchesFrom(needle, t, i))
  {
    WindowInBuffer(t, mapping, |needle|, i);
    var found := CompareWindow(needle, t.buf, i);
    AddressesStep(needle, t, mapping.addrBegin, i, out, found);
    out' := out + if found then [(mapping.addrBegin + i) % ULL_MOD] else [];
  }

  /** `find_value(pid, needle, mapping, addrs)` once the read has produced `t`:
      appends `mapping.addr_begin + i` for every aligned offset i below `nread`
      whose window equals the needle, in increasing order, and nothing when the
      read failed. */
  method FindValue(needle: seq<byte>, mapping: MemoryMapping, t: Transfer, addrs: seq<u64>)
    returns (out: seq<u64>)
    requires ReadFits(t, mapping, |needle|)
    ensures out == addrs + RegionMatches(needle, mapping, t)
    ensures t.nread <= 0 ==> out == addrs
  {
    var nread := t.nread;
    var w := |needle|;
    out := addrs;
    var i: nat := 0;
    while i < nread
      invariant Aligned(i, w)
      invariant out + Addresses(mapping.addrBegin, MatchesFrom(needle, t, i))
             == addrs + RegionMatches(needle, mapping, t)
      decreases nread - i
    {
      out := CheckWindow(needle, mapping, t, i, out);
      AlignedStep(i, w);
      i := i + w;
    }
  }

  /** The addresses of one whole round: every region's matches, region after
      region. */
  function RoundMatches(needle: seq<byte>, mappings: seq<MemoryMapping>, reader: MemoryMapping -> Transfer)
    : seq<u64>
    requires |needle| > 0
  {
    if mappings == [] then []
    else RegionMatches(needle, mappings[0], reader(mappings[0])) + RoundMatches(needle, mappings[1..], reader)
  }

  /** Every region of the round can be read without undefined behaviour. */
  predicate ReaderFits(reader: MemoryMapping -> Transfer, mappings: seq<MemoryMapping>, w: nat) {
    forall k :: 0 <= k < |mappings| ==> ReadFits(reader(mappings[k]), mappings[k], w)
  }

  /** The round's matches from region i on: region i's, then the rest. */
  lemma RoundMatchesStep(needle: seq<byte>, mappings: seq<MemoryMapping>, reader: MemoryMapping -> Transfer, i: nat)
    requires |needle| > 0 && i < |mappings|
    ensures RoundMatches(needle, mappings[i..], reader)
         == RegionMatches(needle, mappings[i], reader(mappings[i])) + RoundMatches(needle, mappings[i + 1..], reader)
  {
    assert mappings[i..][1..] == mappings[i + 1..];
  }

  /** `for (i < mappings.size()) find_value(pid, to_find, mappings[i], addrs)`,
      where `reader` gives what the read of each region transfers. */
  method ScanRegions(needle: seq<byte>, mappings: seq<MemoryMapping>, reader: MemoryMapping -> Transfer,
                     addrs: seq<u64>)
    returns (out: seq<u64>)
    requires |needle| > 0 && ReaderFits(reader, mappings, |needle|)
    ensures out == addrs + RoundMatches(needle, mappings, reader)
  {
    out := addrs;
    for i := 0 to |mappings|
      invariant out + RoundMatches(needle, mappings[i..], reader) == addrs + RoundMatches(needle, mappings, reader)
    {
      RoundMatchesStep(needle, mappings, reader, i);
      out := FindValue(needle, mappings[i], reader(mappings[i]), out);
    }
  }

  // ----- lemmas -----

  /** Every match of every region is among the round's addresses. */
  lemma {:induction false} RoundMatchesComplete(needle: seq<byte>, mappings: seq<MemoryMapping>,
                                                reader: MemoryMapping -> Transfer)
    requires |needle| > 0
    ensures forall k, x :: 0 <= k < |mappings| && x in RegionMatches(needle, mappings[k], reader(mappings[k])) ==>
      x in RoundMatches(needle, mappings, reader)
  {
    if mappings != [] {
      var head := RegionMatches(needle, mappings[0], reader(mappings[0]));
      var rest := RoundMatches(needle, mappings[1..], reader);
      RoundMatchesComplete(needle, mappings[1..], reader);
      forall k, x | 0 <= k < |mappings| && x in RegionMatches(needle, mappings[k], reader(mappings[k]))
        ensures x in RoundMatches(needle, mappings, reader)
      {
        if k == 0 {
          assert x in head + rest;
        } else {
          assert mappings[1..][k - 1] == mappings[k];
          assert x in head + rest;
        }
      }
    }
  }

  /** Exactly the aligned offsets below `nread` whose window equals the needle are
      reported: an occurrence at an offset that is not a multiple of the width is
      never found, and a window that matches is never skipped. */
  lemma {:induction false} MatchesFromExact(needle: seq<byte>, t: Transfer, i: nat)
    requires |needle| > 0 && Aligned(i, |needle|)
    ensures forall x :: x in MatchesFrom(needle, t, i) <==>
      i <= x < t.nread && Aligned(x, |needle|) && WindowMatches(needle, t.buf, x)
    decreases if i < t.nread then t.nread - i else 0
  {
    if i < t.nread {
      var w := |needle|;
      var head: seq<nat> := if WindowMatches(needle, t.buf, i) then [i] else [];
      var rest := MatchesFrom(needle, t, i + w);
      assert MatchesFrom(needle, t, i) == head + rest;
      AlignedStep(i, w);
      MatchesFromExact(needle, t, i + w);
      AlignedGap(i, w);
      forall x
        ensures x in head + rest <==>
          i <= x < t.nread && Aligned(x, w) && WindowMatches(needle, t.buf, x)
      {
        assert x in head + rest <==> x in head || x in rest;
      }
    }
  }

  /** The offsets come out strictly increasing, each at least `i`. */
  lemma {:induction false} MatchesFromIncreasing(needle: seq<byte>, t: Transfer, i: nat)
    requires |needle| > 0
    ensures forall x :: x in MatchesFrom(needle, t, i) ==> i <= x
    ensures forall k, l :: 0 <= k < l < |MatchesFrom(needle, t, i)| ==>
      MatchesFrom(needle, t, i)[k] < MatchesFrom(needle, t, i)[l]
    decreases if i < t.nread then t.nread - i else 0
  {
    if i < t.nread {
      var w := |needle|;
      var head: seq<nat> := if WindowMatches(needle, t.buf, i) then [i] else [];
      var rest := MatchesFrom(needle, t, i + w);
      var r := head + rest;
      assert MatchesFrom(needle, t, i) == r;
      MatchesFromIncreasing(needle, t, i + w);
      forall k, l | 0 <= k < l < |r|
        ensures r[k] < r[l]
      {
        if k < |head| {
          assert rest[l - |head|] in rest;
        }
      }
      forall x | x in r
        ensures i <= x
      {
        assert x in head || x in rest;
      }
    }
  }

  /** An occurrence that starts at an offset that is not a multiple of the width is
      never reported: the pattern at offset 2 of an 8-byte buffer is missed. */
  lemma UnalignedOccurrenceMissed()
    ensures MatchesFrom([1, 2, 3, 4], Transfer([9, 9, 1, 2, 3, 4, 9, 9], 8), 0) == []
  {
    var needle: seq<byte> := [1, 2, 3, 4];
    var t := Transfer([9, 9, 1, 2, 3, 4, 9, 9], 8);
    assert !WindowMatches(needle, t.buf, 0) by { assert t.buf[0] != needle[0]; }
    assert !WindowMatches(needle, t.buf, 4) by { assert t.buf[4] != needle[0]; }
  }

  /** Aligned occurrences are all reported, in order: the pattern at offsets 4
      and 12 of a 16-byte buffer read from `base` gives exactly `base + 4` and
      `base + 12`. */
  lemma AlignedOccurrencesFound(base: u64)
    requires base + 16 < ULL_MOD
    ensures RegionMatches([1, 2, 3, 4], MemoryMapping(base, base + 16, 16, 0, "", "", ""),
                          Transfer([0, 0, 0, 0, 1, 2, 3, 4, 0, 0, 0, 0, 1, 2, 3, 4], 16))
         == [base + 4, base + 12]
  {
    var needle: seq<byte> := [1, 2, 3, 4];
    var t := Transfer([0, 0, 0, 0, 1, 2, 3, 4, 0, 0, 0, 0, 1, 2, 3, 4], 16);
    assert !WindowMatches(needle, t.buf, 0) by { assert t.buf[0] != needle[0]; }
    assert WindowMatches(needle, t.buf, 4);
    assert !WindowMatches(needle, t.buf, 8) by { assert t.buf[8] != needle[0]; }
    assert WindowMatches(needle, t.buf, 12);
    var offsets: seq<nat> := [4, 12];
    assert MatchesFrom(needle, t, 0) == offsets;
    assert offsets[1..] == [12] && offsets[1..][1..] == [];
    DivModUnique(base + 4, ULL_MOD, 0, base + 4);
    DivModUnique(base + 12, ULL_MOD, 0, base + 12);
    assert Addresses(base, offsets) == [base + 4] + Addresses(base, [12]);
  }

  /** Each address `find_value` appends for a region is `addr_begin + i` for an
      aligned offset `i` below `nread` whose window equals the needle, and the
      addresses come out in increasing order of offset. */
  lemma RegionMatchesSound(needle: seq<byte>, m: MemoryMapping, t: Transfer)
    requires |needle| > 0
    ensures forall k :: 0 <= k < |RegionMatches(needle, m, t)| ==>
      var i := MatchesFrom(needle, t, 0)[k];
      && RegionMatches(needle, m, t)[k] == (m.addrBegin + i) % ULL_MOD
      && i < t.nread && Aligned(i, |needle|) && WindowMatches(needle, t.buf, i)
    ensures forall k, l :: 0 <= k < l < |MatchesFrom(needle, t, 0)| ==>
      MatchesFrom(needle, t, 0)[k] < MatchesFrom(needle, t, 0)[l]
  {
    var offsets := MatchesFrom(needle, t, 0);
    assert Aligned(0, |needle|);
    MatchesFromExact(needle, t, 0);
    MatchesFromIncreasing(needle, t, 0);
    AddressesAt(m.addrBegin, offsets);
    forall k | 0 <= k < |offsets|
      ensures offsets[k] < t.nread && Aligned(offsets[k], |needle|) && WindowMatches(needle, t.buf, offsets[k])
    {
      assert offsets[k] in offsets;
    }
  }

  /** A window that starts below `nread` but ends past it is still compared,
      against whatever the buffer held: with 2 of 4 bytes read, the pattern is
      reported at offset 0 when the buffer's unread tail happens to complete it. */
  lemma PartialWindowCompared()
    ensures MatchesFrom([1, 2, 3, 4], Transfer([1, 2, 3, 4], 2), 0) == [0]
  {
    var needle: seq<byte> := [1, 2, 3, 4];
    var t := Transfer([1, 2, 3, 4], 2);
    assert WindowMatches(needle, t.buf, 0);
    assert MatchesFrom(needle, t, 4) == [];
  }
}
