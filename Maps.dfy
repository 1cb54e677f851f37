/** The region catalogue: the lines of the target's `/proc/<pid>/maps` and the
    `MemoryMapping` records that `get_addresses` (src/cheat.cpp) builds from them.
    The file is read line by line with `getline` and each line goes through
    `sscanf(line, "%llx-%llx %4s %llx %5s %lld %s", ...)` into variables declared
    once, outside the loop: a conversion that fails leaves its variable, and every
    later one, holding whatever the previous line put there. */
module Maps {
  import opened Bytes

  /** `struct MemoryMapping`. Addresses and the inode are as scanned; `size` is
      the unsigned 64-bit difference `end - begin`. */
  datatype MemoryMapping = MemoryMapping(
    addrBegin: nat,
    addrEnd: nat,
    size: u64,
    inode: nat,
    mapname: string,
    dev: string,
    permissions: string)

  // ----- characters -----

  /** C's `isspace` in the "C" locale. */
  predicate IsSpace(c: char) {
    c == ' ' || '\t' <= c <= '\r'
  }

  predicate IsNotSpace(c: char) {
    !IsSpace(c)
  }

  predicate IsHexDigit(c: char) {
    '0' <= c <= '9' || 'a' <= c <= 'f' || 'A' <= c <= 'F'
  }

  predicate IsDecDigit(c: char) {
    '0' <= c <= '9'
  }

  predicate IsNotNewline(c: char) {
    c != '\n'
  }

  function HexDigitValue(c: char): (v: nat)
    requires IsHexDigit(c)
    ensures v < 16
  {
    if c <= '9' then c as nat - '0' as nat
    else if c <= 'F' then c as nat - 'A' as nat + 10
    else c as nat - 'a' as nat + 10
  }

  predicate AllHex(ds: string) {
    forall k :: 0 <= k < |ds| ==> IsHexDigit(ds[k])
  }

  predicate AllDec(ds: string) {
    forall k :: 0 <= k < |ds| ==> IsDecDigit(ds[k])
  }

  predicate AllNotSpace(s: string) {
    forall k :: 0 <= k < |s| ==> IsNotSpace(s[k])
  }

  /** The number written by the hexadecimal digits `ds`, most significant first. */
  function HexValue(ds: string): nat
    requires AllHex(ds)
  {
    if ds == [] then 0 else HexValue(ds[..|ds| - 1]) * 16 + HexDigitValue(ds[|ds| - 1])
  }

  /** The number written by the decimal digits `ds`, most significant first. */
  function DecValue(ds: string): nat
    requires AllDec(ds)
  {
    if ds == [] then 0 else DecValue(ds[..|ds| - 1]) * 10 + (ds[|ds| - 1] as nat - '0' as nat)
  }

  /** The character classes the scanner stops at. */
  datatype CharClass = Space | NotSpace | HexDigit | DecDigit | NotNewline

  predicate In(c: char, cls: CharClass) {
    match cls
    case Space => IsSpace(c)
    case NotSpace => IsNotSpace(c)
    case HexDigit => IsHexDigit(c)
    case DecDigit => IsDecDigit(c)
    case NotNewline => IsNotNewline(c)
  }

  /** The length of the longest prefix of `s` whose characters are all in `cls`. */
  function Span(s: string, cls: CharClass): (n: nat)
    ensures n <= |s|
    ensures forall k :: 0 <= k < n ==> In(s[k], cls)
    ensures n < |s| ==> !In(s[n], cls)
  {
    if s == [] || !In(s[0], cls) then 0 else 1 + Span(s[1..], cls)
  }

  /** The input left once the leading white space is skipped: every character
      dropped is a blank, and what is left does not start with one. */
  function SkipSpace(s: string): (r: string)
    ensures Suffix(r, s)
    ensures forall k :: 0 <= k < |s| - |r| ==> IsSpace(s[k])
    ensures r == [] || !IsSpace(r[0])
  {
    s[Span(s, Space)..]
  }

  // ----- the conversions of the format string -----

  /** The outcome of one conversion: the value and the input left after it, or a
      failure, which ends the whole `sscanf` call. */
  datatype Conv<T> = Matched(value: T, rest: string) | Failed

  /** `rest` is what is left of `s` after some prefix has been consumed. */
  predicate Suffix(rest: string, s: string) {
    |rest| <= |s| && rest == s[|s| - |rest|..]
  }

  /** `%llx`: skips white space, then reads one or more hexadecimal digits. It
      fails exactly when no digit follows the blanks; otherwise it consumes the
      longest run of digits. */
  function ScanHex(s: string): (r: Conv<nat>)
    ensures r.Failed? <==> SkipSpace(s) == [] || !IsHexDigit(SkipSpace(s)[0])
    ensures r.Matched? ==> Suffix(r.rest, s) && |r.rest| < |s|
    ensures r.Matched? ==> r.rest == [] || !IsHexDigit(r.rest[0])
  {
    var t := SkipSpace(s);
    var n := Span(t, HexDigit);
    if n == 0 then Failed else Matched(HexValue(t[..n]), t[n..])
  }

  /** `%lld`: skips white space, then reads one or more decimal digits. It fails
      exactly when no digit follows the blanks; otherwise it consumes the longest
      run of digits. */
  function ScanDec(s: string): (r: Conv<nat>)
    ensures r.Failed? <==> SkipSpace(s) == [] || !IsDecDigit(SkipSpace(s)[0])
    ensures r.Matched? ==> Suffix(r.rest, s) && |r.rest| < |s|
    ensures r.Matched? ==> r.rest == [] || !IsDecDigit(r.rest[0])
  {
    var t := SkipSpace(s);
    var n := Span(t, DecDigit);
    if n == 0 then Failed else Matched(DecValue(t[..n]), t[n..])
  }

  /** `%<width>s` (`width == 0` for plain `%s`): skips white space, then reads
      one or more non-white-space characters, at most `width` of them. It fails
      exactly when only blanks are left; the word it stores is the blank-free
      text right after the blanks, and it stops only at a blank, at the end of
      the input, or once `width` characters are read. */
  function ScanString(s: string, width: nat): (r: Conv<string>)
    ensures r.Failed? <==> SkipSpace(s) == [] || IsSpace(SkipSpace(s)[0])
    ensures r.Matched? ==> r.value != [] && AllNotSpace(r.value) && (width > 0 ==> |r.value| <= width)
    ensures r.Matched? ==> SkipSpace(s) == r.value + r.rest && Suffix(r.rest, s)
    ensures r.Matched? && width == 0 ==> r.rest == [] || IsSpace(r.rest[0])
    ensures r.Matched? && width > 0 ==> |r.value| == width || r.rest == [] || IsSpace(r.rest[0])
  {
    var t := SkipSpace(s);
    var n := Span(t, NotSpace);
    var k := if width > 0 && n > width then width else n;
    if k == 0 then Failed else
      assert t == t[..k] + t[k..];
      assert t[k..] == s[|s| - |t[k..]|..];
      Matched(t[..k], t[k..])
  }

  /** The seven variables `sscanf` writes into (`foo` is the file offset). */
  datatype ScanVars = ScanVars(
    begin: nat,
    end: nat,
    permissions: string,
    offset: nat,
    dev: string,
    inode: nat,
    mapname: string)

  /** `sscanf(line, "%llx-%llx %4s %llx %5s %lld %s", ...)` applied to the
      variables `v`: each conversion that succeeds overwrites its variable; the
      first one that fails (or the '-' not being there) stops the scan and leaves
      the remaining variables as they were. The blanks of the format skip white
      space, which every conversion used here skips anyway. */
  function ScanLine(line: string, v: ScanVars): (r: ScanVars)
    ensures ScanHex(line).Failed? ==> r == v
    ensures ScanHex(line).Matched? ==> r.begin == ScanHex(line).value
    ensures ScanHex(line).Matched? && (ScanHex(line).rest == [] || ScanHex(line).rest[0] != '-')
            ==> r == v.(begin := ScanHex(line).value)
  {
    match ScanHex(line)
    case Failed => v
    case Matched(b, s) =>
      if s == [] || s[0] != '-' then v.(begin := b)
      else ScanEnd(s[1..], v.(begin := b))
  }

  // Each stage below stores its own conversion, leaves the variables of the
  // conversions before it alone, and on failure changes nothing.

  function ScanEnd(s: string, v: ScanVars): (r: ScanVars)
    ensures ScanHex(s).Failed? ==> r == v
    ensures ScanHex(s).Matched? ==> r.end == ScanHex(s).value
    ensures r.begin == v.begin
  {
    match ScanHex(s)
    case Failed => v
    case Matched(e, s') => ScanPermissions(s', v.(end := e))
  }

  function ScanPermissions(s: string, v: ScanVars): (r: ScanVars)
    ensures ScanString(s, 4).Failed? ==> r == v
    ensures ScanString(s, 4).Matched? ==> r.permissions == ScanString(s, 4).value
    ensures r.begin == v.begin && r.end == v.end
  {
    match ScanString(s, 4)
    case Failed => v
    case Matched(p, s') => ScanOffset(s', v.(permissions := p))
  }

  function ScanOffset(s: string, v: ScanVars): (r: ScanVars)
    ensures ScanHex(s).Failed? ==> r == v
    ensures ScanHex(s).Matched? ==> r.offset == ScanHex(s).value
    ensures r.begin == v.begin && r.end == v.end && r.permissions == v.permissions
  {
    match ScanHex(s)
    case Failed => v
    case Matched(o, s') => ScanDev(s', v.(offset := o))
  }

  function ScanDev(s: string, v: ScanVars): (r: ScanVars)
    ensures ScanString(s, 5).Failed? ==> r == v
    ensures ScanString(s, 5).Matched? ==> r.dev == ScanString(s, 5).value
    ensures r.begin == v.begin && r.end == v.end && r.permissions == v.permissions && r.offset == v.offset
  {
    match ScanString(s, 5)
    case Failed => v
    case Matched(d, s') => ScanInode(s', v.(dev := d))
  }

  function ScanInode(s: string, v: ScanVars): (r: ScanVars)
    ensures ScanDec(s).Failed? ==> r == v
    ensures ScanDec(s).Matched? ==> r.inode == ScanDec(s).value
    ensures r.(inode := v.inode, mapname := v.mapname) == v
  {
    match ScanDec(s)
    case Failed => v
    case Matched(i, s') => ScanMapname(s', v.(inode := i))
  }

  function ScanMapname(s: string, v: ScanVars): (r: ScanVars)
    ensures ScanString(s, 0).Failed? ==> r == v
    ensures ScanString(s, 0).Matched? ==> r.mapname == ScanString(s, 0).value
    ensures r.(mapname := v.mapname) == v
  {
    match ScanString(s, 0)
    case Failed => v
    case Matched(m, _) => v.(mapname := m)
  }

  /** The record `get_addresses` pushes after scanning a line into `v`. */
  function ToMapping(v: ScanVars): (m: MemoryMapping)
    ensures m.addrBegin == v.begin && m.addrEnd == v.end
    ensures v.begin <= v.end < ULL_MOD ==> m.size == v.end - v.begin
    ensures v.end < v.begin < ULL_MOD ==> m.size == ULL_MOD + v.end - v.begin
    ensures m.inode == v.inode && m.mapname == v.mapname
    ensures m.dev == v.dev && m.permissions == v.permissions
  {
    MemoryMapping(v.begin, v.end, (v.end - v.begin) % ULL_MOD, v.inode, v.mapname, v.dev, v.permissions)
  }

  // ----- lines of the file -----

  /** The lines `getline` returns from `text`: split at each '\n', the '\n'
      dropped; a last line without a '\n' is still returned, and a '\n' at the
      very end does not start an extra empty line. */
  function Lines(text: string): (r: seq<string>)
    ensures text != [] ==> r != []
    decreases |text|
  {
    if text == [] then []
    else
      var n := Span(text, NotNewline);
      if n == |text| then [text] else [text[..n]] + Lines(text[n + 1..])
  }

  /** Each line followed by a '\n'. */
  function Join(lines: seq<string>): string {
    if lines == [] then [] else lines[0] + "\n" + Join(lines[1..])
  }

  /** The records for `lines`, scanned in order, each from the variables the
      previous line left. */
  function MappingsOf(lines: seq<string>, v: ScanVars): (r: seq<MemoryMapping>)
    ensures |r| == |lines|
  {
    if lines == [] then []
    else
      var v' := ScanLine(lines[0], v);
      [ToMapping(v')] + MappingsOf(lines[1..], v')
  }

  /** `get_addresses`: one record pushed onto `addrs` per line of the maps file
      `text`, in file order. `init` stands for the uninitialised variables the
      first line is scanned into. */
  method GetAddresses(text: string, init: ScanVars, addrs: seq<MemoryMapping>)
    returns (out: seq<MemoryMapping>)
    ensures out == addrs + MappingsOf(Lines(text), init)
    ensures |out| == |addrs| + |Lines(text)|
  {
    var lines := Lines(text);
    var vars := init;  // begin, end, permissions, foo, dev, inode, mapname
    out := addrs;
    var k := 0;
    while k < |lines|
      invariant k <= |lines|
      invariant out + MappingsOf(lines[k..], vars) == addrs + MappingsOf(lines, init)
    {
      MappingsOfStep(lines, k, vars);
      vars := ScanLine(lines[k], vars);
      var mapping := ToMapping(vars);
      out := out + [mapping];
      k := k + 1;
    }
  }

  lemma MappingsOfStep(lines: seq<string>, k: nat, v: ScanVars)
    requires k < |lines|
    ensures MappingsOf(lines[k..], v)
         == [ToMapping(ScanLine(lines[k], v))] + MappingsOf(lines[k + 1..], ScanLine(lines[k], v))
  {
    assert lines[k..][0] == lines[k] && lines[k..][1..] == lines[k + 1..];
  }

  // ----- lemmas: lines -----

  /** Joining the lines back gives the file, with a final '\n' added when the
      file did not end with one. */
  lemma {:induction false} JoinLines(text: string)
    ensures Join(Lines(text)) == if text == [] || text[|text| - 1] == '\n' then text else text + "\n"
    decreases |text|
  {
    if text != [] {
      var n := Span(text, NotNewline);
      if n < |text| {
        var line, rest := text[..n], text[n + 1..];
        JoinLinesCut(text, n);
        JoinLines(rest);
        var joined := Join(Lines(rest));
        if rest == [] {
          assert text == line + "\n";
        } else if rest[|rest| - 1] == '\n' {
          assert text[|text| - 1] == rest[|rest| - 1];
          assert joined == rest;
        } else {
          assert text[|text| - 1] == rest[|rest| - 1];
          assert joined == rest + "\n";
          assert line + "\n" + (rest + "\n") == text + "\n";
        }
      } else {
        assert Lines(text) == [text];
        assert Join([text]) == text + "\n";
        assert IsNotNewline(text[|text| - 1]);
      }
    }
  }

  /** The first line, its '\n', then the join of the other lines. */
  lemma JoinLinesCut(text: string, n: nat)
    requires n == Span(text, NotNewline) && n < |text|
    ensures text == text[..n] + "\n" + text[n + 1..]
    ensures Join(Lines(text)) == text[..n] + "\n" + Join(Lines(text[n + 1..]))
  {
    LinesStep(text, n);
    JoinStep(text[..n], Lines(text[n + 1..]));
    assert text[n] == '\n' by { assert !IsNotNewline(text[n]); }
    CutAt(text, n);
  }

  /** No line holds a '\n'. */
  lemma {:induction false} LinesHaveNoNewline(text: string)
    ensures forall k :: 0 <= k < |Lines(text)| ==> '\n' !in Lines(text)[k]
    decreases |text|
  {
    if text != [] {
      var n := Span(text, NotNewline);
      if n == |text| {
        assert Lines(text) == [text];
        assert '\n' !in text by {
          forall k | 0 <= k < |text| ensures text[k] != '\n' { assert IsNotNewline(text[k]); }
        }
      } else {
        LinesStep(text, n);
        LinesHaveNoNewline(text[n + 1..]);
        var line := text[..n];
        assert '\n' !in line by {
          forall k | 0 <= k < n ensures line[k] != '\n' { assert IsNotNewline(text[k]); }
        }
        var ls := Lines(text[n + 1..]);
        forall k | 0 <= k < |Lines(text)|
          ensures '\n' !in Lines(text)[k]
        {
          if k > 0 {
            assert Lines(text)[k] == ls[k - 1];
          }
        }
      }
    }
  }

  /** A string is its prefix, the character at the cut and the rest. */
  lemma CutAt(s: string, n: nat)
    requires n < |s|
    ensures s == s[..n] + [s[n]] + s[n + 1..]
  {
  }

  lemma LinesStep(text: string, n: nat)
    requires n == Span(text, NotNewline) && n < |text|
    ensures Lines(text) == [text[..n]] + Lines(text[n + 1..])
  {
  }

  lemma JoinStep(line: string, ls: seq<string>)
    ensures Join([line] + ls) == line + "\n" + Join(ls)
  {
    assert ([line] + ls)[1..] == ls;
  }

  /** Splitting a joined file gives back the lines, provided none holds a '\n'. */
  lemma {:induction false} LinesJoin(lines: seq<string>)
    requires forall k :: 0 <= k < |lines| ==> '\n' !in lines[k]
    ensures Lines(Join(lines)) == lines
  {
    if lines != [] {
      var line, tail := lines[0], Join(lines[1..]);
      var text := Join(lines);
      assert text == line + ("\n" + tail);
      assert '\n' !in line;
      forall k | 0 <= k < |line|
        ensures In(line[k], NotNewline)
      {
        assert line[k] in line;
      }
      SpanStops(line, "\n" + tail, NotNewline);
      var n := |line|;
      LinesStep(text, n);
      assert text[..n] == line && text[n + 1..] == tail;
      LinesJoin(lines[1..]);
      assert lines == [line] + lines[1..];
    }
  }

  // ----- lemmas: scanning well-formed lines -----

  lemma {:induction false} SpanStops(a: string, b: string, cls: CharClass)
    requires forall k :: 0 <= k < |a| ==> In(a[k], cls)
    requires b == [] || !In(b[0], cls)
    ensures Span(a + b, cls) == |a|
  {
    if a == [] {
      assert a + b == b;
    } else {
      var ab := a + b;
      assert ab[0] == a[0] && In(a[0], cls);
      assert ab[1..] == a[1..] + b;
      SpanStops(a[1..], b, cls);
    }
  }

  function Spaces(n: nat): (r: string)
    ensures |r| == n && forall k :: 0 <= k < n ==> r[k] == ' '
  {
    seq(n, _ => ' ')
  }

  lemma SkipSpaces(n: nat, s: string)
    requires s == [] || !IsSpace(s[0])
    ensures SkipSpace(Spaces(n) + s) == s
  {
    SpanStops(Spaces(n), s, Space);
  }

  lemma ScanHexDigits(pad: nat, ds: string, rest: string)
    requires ds != [] && AllHex(ds)
    requires rest == [] || !IsHexDigit(rest[0])
    ensures ScanHex(Spaces(pad) + (ds + rest)) == Matched(HexValue(ds), rest)
  {
    SkipSpaces(pad, ds + rest);
    SpanStops(ds, rest, HexDigit);
    assert (ds + rest)[..|ds|] == ds;
  }

  lemma ScanDecDigits(pad: nat, ds: string, rest: string)
    requires ds != [] && AllDec(ds)
    requires rest == [] || !IsDecDigit(rest[0])
    ensures ScanDec(Spaces(pad) + (ds + rest)) == Matched(DecValue(ds), rest)
  {
    SkipSpaces(pad, ds + rest);
    SpanStops(ds, rest, DecDigit);
    assert (ds + rest)[..|ds|] == ds;
  }

  lemma ScanWord(pad: nat, word: string, rest: string, width: nat)
    requires word != [] && AllNotSpace(word)
    requires width == 0 || |word| <= width
    requires rest == [] || IsSpace(rest[0])
    ensures ScanString(Spaces(pad) + (word + rest), width) == Matched(word, rest)
  {
    SkipSpaces(pad, word + rest);
    SpanStops(word, rest, NotSpace);
    assert (word + rest)[..|word|] == word;
  }

  /** The first white-space-free word of a pathname: what `%s` stores. */
  function Word(path: string): string {
    path[..Span(path, NotSpace)]
  }

  /** The textual fields of a maps line as the kernel writes it. */
  datatype MapsLine = MapsLine(
    begin: string,
    end: string,
    permissions: string,
    offset: string,
    dev: string,
    inode: string,
    pad: nat,
    pathname: string)

  /** A line as the kernel writes it: hexadecimal addresses and offset, at most
      four permission characters, a blank-free device field, a decimal inode,
      then either nothing (an anonymous mapping, possibly with trailing blanks)
      or blanks followed by the pathname. */
  predicate KernelLine(f: MapsLine) {
    && f.begin != [] && AllHex(f.begin)
    && f.end != [] && AllHex(f.end)
    && 1 <= |f.permissions| <= 4 && AllNotSpace(f.permissions)
    && f.offset != [] && AllHex(f.offset)
    && f.dev != [] && AllNotSpace(f.dev)
    && f.inode != [] && AllDec(f.inode)
    && (f.pathname != [] ==> f.pad >= 1 && !IsSpace(f.pathname[0]))
  }

  /** A line of the shape the format expects: a kernel line whose device field
      fits `%5s`. The kernel prints the major number in hexadecimal with at least
      two digits, so a major above 255 (NVMe's 259 is `103`) makes the field six
      characters long, and such a line is not well formed. */
  predicate WellFormed(f: MapsLine) {
    KernelLine(f) && |f.dev| <= 5
  }

  function Render(f: MapsLine): string {
    f.begin + ("-" + (f.end + (" " + (f.permissions + (" " + (f.offset + (" " + (f.dev
      + (" " + (f.inode + (Spaces(f.pad) + f.pathname)))))))))))
  }

  // One lemma per conversion of the format, each taking the input left by the
  // one before.

  lemma EndStage(e: string, s: string, v: ScanVars)
    requires e != [] && AllHex(e)
    ensures ScanEnd(e + (" " + s), v) == ScanPermissions(" " + s, v.(end := HexValue(e)))
  {
    ScanHexDigits(0, e, " " + s);
    assert Spaces(0) + (e + (" " + s)) == e + (" " + s);
  }

  lemma PermissionsStage(p: string, s: string, v: ScanVars)
    requires 1 <= |p| <= 4 && AllNotSpace(p)
    ensures ScanPermissions(" " + (p + (" " + s)), v) == ScanOffset(" " + s, v.(permissions := p))
  {
    ScanWord(1, p, " " + s, 4);
    assert Spaces(1) == " ";
  }

  lemma OffsetStage(o: string, s: string, v: ScanVars)
    requires o != [] && AllHex(o)
    ensures ScanOffset(" " + (o + (" " + s)), v) == ScanDev(" " + s, v.(offset := HexValue(o)))
  {
    ScanHexDigits(1, o, " " + s);
    assert Spaces(1) == " ";
  }

  lemma DevStage(d: string, s: string, v: ScanVars)
    requires 1 <= |d| <= 5 && AllNotSpace(d)
    ensures ScanDev(" " + (d + (" " + s)), v) == ScanInode(" " + s, v.(dev := d))
  {
    ScanWord(1, d, " " + s, 5);
    assert Spaces(1) == " ";
  }

  /** `%5s` on a longer device field stores its first five characters and leaves
      the rest of the field to `%lld`. */
  lemma LongDevStage(d: string, s: string, v: ScanVars)
    requires |d| > 5 && AllNotSpace(d)
    ensures ScanDev(" " + (d + (" " + s)), v) == ScanInode(d[5..] + (" " + s), v.(dev := d[..5]))
  {
    SkipSpaces(1, d + (" " + s));
    assert Spaces(1) == " ";
    SpanStops(d, " " + s, NotSpace);
    assert (d + (" " + s))[..5] == d[..5];
    assert (d + (" " + s))[5..] == d[5..] + (" " + s);
  }

  lemma InodeStage(i: string, pad: nat, path: string, v: ScanVars)
    requires i != [] && AllDec(i)
    requires path != [] ==> pad >= 1
    ensures ScanInode(" " + (i + (Spaces(pad) + path)), v)
         == ScanMapname(Spaces(pad) + path, v.(inode := DecValue(i)))
  {
    var tail := Spaces(pad) + path;
    assert tail == [] || tail[0] == ' ';
    ScanDecDigits(1, i, tail);
    assert Spaces(1) == " ";
  }

  lemma MapnameStage(pad: nat, path: string, v: ScanVars)
    requires path == [] || !IsSpace(path[0])
    ensures ScanMapname(Spaces(pad) + path, v)
         == v.(mapname := if path == [] then v.mapname else Word(path))
  {
    if path == [] {
      SkipSpaces(pad, []);
      assert Spaces(pad) + [] == Spaces(pad);
    } else {
      var n := Span(path, NotSpace);
      assert path == Word(path) + path[n..];
      ScanWord(pad, Word(path), path[n..], 0);
    }
  }

  /** A well-formed line sets every variable from its own fields, whatever the
      previous line left, except that an anonymous mapping keeps the previous
      pathname; the pathname stored is its first word. */
  lemma ScanWellFormed(f: MapsLine, v: ScanVars)
    requires WellFormed(f)
    ensures ScanLine(Render(f), v)
         == ScanVars(HexValue(f.begin), HexValue(f.end), f.permissions, HexValue(f.offset),
                     f.dev, DecValue(f.inode),
                     if f.pathname == [] then v.mapname else Word(f.pathname))
  {
    var s6 := f.inode + (Spaces(f.pad) + f.pathname);
    var s5 := f.dev + (" " + s6);
    var s4 := f.offset + (" " + s5);
    var s3 := f.permissions + (" " + s4);
    var s2 := f.end + (" " + s3);
    ScanHexDigits(0, f.begin, "-" + s2);
    assert Spaces(0) + Render(f) == Render(f);
    assert ("-" + s2)[1..] == s2;
    var v1 := v.(begin := HexValue(f.begin));
    assert ScanLine(Render(f), v) == ScanEnd(s2, v1);
    EndStage(f.end, s3, v1);
    var v2 := v1.(end := HexValue(f.end));
    PermissionsStage(f.permissions, s4, v2);
    var v3 := v2.(permissions := f.permissions);
    OffsetStage(f.offset, s5, v3);
    var v4 := v3.(offset := HexValue(f.offset));
    DevStage(f.dev, s6, v4);
    var v5 := v4.(dev := f.dev);
    InodeStage(f.inode, f.pad, f.pathname, v5);
    MapnameStage(f.pad, f.pathname, v5.(inode := DecValue(f.inode)));
  }

  /** A kernel line whose device field is longer than five characters still
      sets begin, end, permissions and offset from its own fields, but `dev`
      keeps only five characters and the scan goes on, out of step, with the
      rest of the device field in the place of the inode. */
  lemma ScanLongDev(f: MapsLine, v: ScanVars)
    requires KernelLine(f) && |f.dev| > 5
    ensures ScanLine(Render(f), v)
         == ScanInode(f.dev[5..] + (" " + (f.inode + (Spaces(f.pad) + f.pathname))),
                      v.(begin := HexValue(f.begin), end := HexValue(f.end),
                         permissions := f.permissions, offset := HexValue(f.offset),
                         dev := f.dev[..5]))
  {
    var s6 := f.inode + (Spaces(f.pad) + f.pathname);
    var s5 := f.dev + (" " + s6);
    var s4 := f.offset + (" " + s5);
    var s3 := f.permissions + (" " + s4);
    var s2 := f.end + (" " + s3);
    ScanHexDigits(0, f.begin, "-" + s2);
    assert Spaces(0) + Render(f) == Render(f);
    assert ("-" + s2)[1..] == s2;
    var v1 := v.(begin := HexValue(f.begin));
    assert ScanLine(Render(f), v) == ScanEnd(s2, v1);
    EndStage(f.end, s3, v1);
    var v2 := v1.(end := HexValue(f.end));
    PermissionsStage(f.permissions, s4, v2);
    var v3 := v2.(permissions := f.permissions);
    OffsetStage(f.offset, s5, v3);
    LongDevStage(f.dev, s6, v3.(offset := HexValue(f.offset)));
  }

  /** `%lld` on digits followed by anything that is not a digit. */
  lemma InodeDigits(ds: string, s: string, v: ScanVars)
    requires ds != [] && AllDec(ds)
    requires s == [] || !IsDecDigit(s[0])
    ensures ScanInode(ds + s, v) == ScanMapname(s, v.(inode := DecValue(ds)))
  {
    ScanDecDigits(0, ds, s);
    assert Spaces(0) + (ds + s) == ds + s;
  }

  /** `%s` on a blank and a word. */
  lemma MapnameWord(w: string, rest: string, v: ScanVars)
    requires w != [] && AllNotSpace(w)
    requires rest == [] || IsSpace(rest[0])
    ensures ScanMapname(" " + (w + rest), v) == v.(mapname := w)
  {
    ScanWord(1, w, rest, 0);
    assert Spaces(1) == " ";
  }

  /** A kernel line whose device field runs past five characters with digits
      only, such as `103:02` (major 259, minor 2): `dev` keeps the first five
      characters, the inode is read from the digits after them, and the name is
      the text of the real inode. */
  lemma LongDevShiftsFields(f: MapsLine, v: ScanVars)
    requires KernelLine(f) && |f.dev| > 5 && AllDec(f.dev[5..])
    ensures ScanLine(Render(f), v)
         == ScanVars(HexValue(f.begin), HexValue(f.end), f.permissions, HexValue(f.offset),
                     f.dev[..5], DecValue(f.dev[5..]), f.inode)
  {
    ScanLongDev(f, v);
    var rest := Spaces(f.pad) + f.pathname;
    assert rest == [] || IsSpace(rest[0]);
    assert AllNotSpace(f.inode) by {
      forall k | 0 <= k < |f.inode| ensures IsNotSpace(f.inode[k]) {
        assert IsDecDigit(f.inode[k]);
      }
    }
    var v5 := v.(begin := HexValue(f.begin), end := HexValue(f.end), permissions := f.permissions,
                 offset := HexValue(f.offset), dev := f.dev[..5]);
    InodeDigits(f.dev[5..], " " + (f.inode + rest), v5);
    MapnameWord(f.inode, rest, v5.(inode := DecValue(f.dev[5..])));
  }

  /** The scan variables after scanning `lines` in order from `v`. */
  function VarsAfter(lines: seq<string>, v: ScanVars): ScanVars {
    if lines == [] then v else VarsAfter(lines[1..], ScanLine(lines[0], v))
  }

  /** Record k of the list is line k scanned into the variables that lines 0..k-1
      left behind: one record per line, in order, and nothing else. */
  lemma {:induction false} MappingAt(lines: seq<string>, v: ScanVars, k: nat)
    requires k < |lines|
    ensures MappingsOf(lines, v)[k] == ToMapping(ScanLine(lines[k], VarsAfter(lines[..k], v)))
  {
    if k == 0 {
      assert lines[..0] == [];
    } else {
      var v' := ScanLine(lines[0], v);
      MappingAt(lines[1..], v', k - 1);
      assert lines[..k][1..] == lines[1..][..k - 1];
      assert MappingsOf(lines, v)[k] == MappingsOf(lines[1..], v')[k - 1];
    }
  }

  /** In the list `get_addresses` builds, the record of a well-formed line has
      that line's addresses, size, permissions, device and inode, whatever came
      before it; its name is the path's first word, or, for a line without a
      path, the name left over from the line before. */
  lemma MappingOfWellFormed(lines: seq<string>, v: ScanVars, k: nat, f: MapsLine)
    requires k < |lines| && WellFormed(f) && lines[k] == Render(f)
    ensures MappingsOf(lines, v)[k]
         == ToMapping(ScanVars(HexValue(f.begin), HexValue(f.end), f.permissions, HexValue(f.offset),
                               f.dev, DecValue(f.inode),
                               if f.pathname == [] then VarsAfter(lines[..k], v).mapname
                               else Word(f.pathname)))
  {
    MappingAt(lines, v, k);
    ScanWellFormed(f, VarsAfter(lines[..k], v));
  }
}
