/** The reader's walk over the sections of a file (src/binary-reader.cc, ReadSections), with the
    limits it sets for what is read inside a section and inside a subsection of the name section. */
module SectionReader {
  import opened Util
  import opened Leb128
  import opened BinaryCodec
  import opened BinaryFormat
  import BinaryReading

  // ----- bounded primitives -----

  datatype Width = Four | Eight | Sixteen

  /** What a reader can ask for: ReadU8, ReadF32/F64/V128, the LEB readers, ReadStr and ReadBytes. */
  datatype Prim = PByte | PFixed(width: Width) | PU32 | PS32 | PS64 | PStr | PBytes

  datatype Value = Num(n: int) | Text(bytes: seq<Byte>)

  /** A value, if there is one, and how far the position moves. */
  datatype Taken = Taken(value: Option<Value>, used: nat)

  function Bytes(w: Width): (n: nat)
    ensures n > 0
  {
    match w case Four => 4 case Eight => 8 case Sixteen => 16
  }

  function FromGot(g: Got<int>, w: seq<Byte>): (t: Taken)
    requires g.Got? ==> |g.rest| < |w|
    ensures t.used <= |w| && (t.value.Some? ==> t.used > 0)
  {
    match g case Bad => Taken(None, 0) case Got(v, rest) => Taken(Some(Num(v)), |w| - |rest|)
  }

  /** The bytes after a length; a string that is too long is not skipped, a malformed one is. */
  function TakeCounted(ok: seq<Byte> -> bool, w: seq<Byte>): (t: Taken)
    ensures t.used <= |w| && (t.value.Some? ==> t.used > 0 && t.value.value.Text?)
  {
    match GetU32(w)
    case Bad => Taken(None, 0)
    case Got(n, rest) =>
      if n > |rest| then Taken(None, |w| - |rest|)
      else Taken(if ok(rest[..n]) then Some(Text(rest[..n])) else None, |w| - |rest| + n)
  }

  /** A primitive sees only the bytes up to the current limit. */
  function Take(utf8: seq<Byte> -> bool, p: Prim, w: seq<Byte>): (t: Taken)
    ensures t.used <= |w| && (t.value.Some? ==> t.used > 0)
  {
    match p
    case PByte => if w == [] then Taken(None, 0) else Taken(Some(Num(w[0])), 1)
    case PFixed(width) => if Bytes(width) > |w| then Taken(None, 0)
      else Taken(Some(Text(w[..Bytes(width)])), Bytes(width))
    case PU32 => (match GetU32(w) case Bad => Taken(None, 0) case Got(v, rest) => Taken(Some(Num(v)), |w| - |rest|))
    case PS32 => FromGot(GetS32(w), w)
    case PS64 => FromGot(GetS64(w), w)
    case PStr => TakeCounted(utf8, w)
    case PBytes => TakeCounted(_ => true, w)
  }

  /** The bytes `a` are one value of the kind asked for: a byte, a fixed number of bytes, a number of
      section 5.2.2 of the WebAssembly Core Specification, or a length and as many bytes. */
  ghost predicate IsValue(utf8: seq<Byte> -> bool, p: Prim, a: seq<Byte>, v: Value) {
    match p
    case PByte => |a| == 1 && v == Num(a[0])
    case PFixed(Four) => |a| == 4 && v == Text(a)
    case PFixed(Eight) => |a| == 8 && v == Text(a)
    case PFixed(Sixteen) => |a| == 16 && v == Text(a)
    case PU32 => v.Num? && v.n >= 0 && Unsigned(a, v.n)
    case PS32 => exists m :: SignedOf(32, a, m) && v == Num(if m < 0 then m + 0x1_0000_0000 else m)
    case PS64 => exists m :: SignedOf(64, a, m) && v == Num(if m < 0 then m + 0x1_0000_0000_0000_0000 else m)
    case PStr => v.Text? && utf8(v.bytes) && Counted(a, v.bytes)
    case PBytes => v.Text? && Counted(a, v.bytes)
  }

  ghost predicate Counted(a: seq<Byte>, text: seq<Byte>) {
    exists b :: a == b + text && Unsigned(b, |text|)
  }

  lemma CountedExactly(ok: seq<Byte> -> bool, w: seq<Byte>, text: seq<Byte>, n: nat)
    ensures TakeCounted(ok, w) == Taken(Some(Text(text)), n) <==> n <= |w| && ok(text) && Counted(w[..n], text)
  {
    hide GetU32, Unsigned;
    if TakeCounted(ok, w) == Taken(Some(Text(text)), n) {
      BinaryReading.U32Out(w);
      var b := BinaryReading.Taken(w, GetU32(w).rest);
      assert w[..n] == b + text;
    }
    if n <= |w| && ok(text) && Counted(w[..n], text) {
      var b :| w[..n] == b + text && Unsigned(b, |text|);
      assert w == b + (text + w[n..]);
      U32In(b, |text|, text + w[n..]);
      assert (text + w[n..])[..|text|] == text;
    }
  }

  lemma UnsignedExactly(utf8: seq<Byte> -> bool, w: seq<Byte>, v: Value, n: nat)
    ensures Take(utf8, PU32, w) == Taken(Some(v), n) <==> n <= |w| && IsValue(utf8, PU32, w[..n], v)
  {
    hide GetU32, Unsigned;
    BinaryReading.U32Out(w);
    if Take(utf8, PU32, w) == Taken(Some(v), n) { assert w[..n] == BinaryReading.Taken(w, GetU32(w).rest); }
    if n <= |w| && IsValue(utf8, PU32, w[..n], v) {
      assert w == w[..n] + w[n..];
      U32In(w[..n], v.n, w[n..]);
    }
  }

  lemma SignedExactly(utf8: seq<Byte> -> bool, w: seq<Byte>, v: Value, n: nat)
    ensures Take(utf8, PS32, w) == Taken(Some(v), n) <==> n <= |w| && IsValue(utf8, PS32, w[..n], v)
  {
    hide GetS32, SignedOf;
    if Take(utf8, PS32, w) == Taken(Some(v), n) {
      var m := BinaryReading.S32Out(w);
      assert w[..n] == BinaryReading.Taken(w, GetS32(w).rest);
    }
    if n <= |w| && IsValue(utf8, PS32, w[..n], v) {
      var m :| SignedOf(32, w[..n], m) && v == Num(if m < 0 then m + 0x1_0000_0000 else m);
      assert w == w[..n] + w[n..];
      S32In(w[..n], m, w[n..]);
    }
  }

  lemma LongExactly(utf8: seq<Byte> -> bool, w: seq<Byte>, v: Value, n: nat)
    ensures Take(utf8, PS64, w) == Taken(Some(v), n) <==> n <= |w| && IsValue(utf8, PS64, w[..n], v)
  {
    hide GetS64, SignedOf;
    if Take(utf8, PS64, w) == Taken(Some(v), n) {
      var m := BinaryReading.S64Out(w);
      assert w[..n] == BinaryReading.Taken(w, GetS64(w).rest);
    }
    if n <= |w| && IsValue(utf8, PS64, w[..n], v) {
      var m :| SignedOf(64, w[..n], m) && v == Num(if m < 0 then m + 0x1_0000_0000_0000_0000 else m);
      assert w == w[..n] + w[n..];
      S64In(w[..n], m, w[n..]);
    }
  }

  /** A primitive succeeds exactly if its bytes come next before the limit, and takes those. */
  lemma TakeExactly(utf8: seq<Byte> -> bool, p: Prim, w: seq<Byte>, v: Value, n: nat)
    ensures Take(utf8, p, w) == Taken(Some(v), n) <==> n <= |w| && IsValue(utf8, p, w[..n], v)
  {
    hide GetU32, GetS32, GetS64, Unsigned, SignedOf, TakeCounted, Counted;
    match p
    case PByte =>
    case PFixed(_) =>
    case PU32 => UnsignedExactly(utf8, w, v, n);
    case PS32 => SignedExactly(utf8, w, v, n);
    case PS64 => LongExactly(utf8, w, v, n);
    case PStr => if v.Text? { CountedExactly(utf8, w, v.bytes, n); }
    case PBytes => if v.Text? { CountedExactly(_ => true, w, v.bytes, n); }
  }

  // ----- readers of contents -----

  /** A reader built from the primitives: what it asks for next, or its verdict, given what it has
      read so far. */
  datatype Ask = Want(prim: Prim) | Stop(ok: bool)
  type Parser = seq<Value> -> Ask

  /** Whether a reader succeeds, and how many bytes it uses. */
  datatype Verdict = Verdict(ok: bool, used: nat)

  function Run(utf8: seq<Byte> -> bool, c: Parser, read: seq<Value>, w: seq<Byte>): (v: Verdict)
    ensures v.used <= |w|
    decreases |w|
  {
    match c(read)
    case Stop(ok) => Verdict(ok, 0)
    case Want(p) =>
      var t := Take(utf8, p, w);
      if t.value.None? then Verdict(false, t.used)
      else
        var v := Run(utf8, c, read + [t.value.value], w[t.used..]);
        Verdict(v.ok, t.used + v.used)
  }

  /** How a file is read.  What a section's reader asks for may depend on everything before it, hence
      on its place in the file. */
  datatype Options = Options(
    utf8: seq<Byte> -> bool, readDebugNames: bool, exceptions: bool, bulkMemory: bool,
    failOnCustomSectionError: bool, stopOnFirstError: bool,
    known: (nat, nat) -> Parser, names: (nat, nat) -> Parser, custom: (seq<Byte>, nat) -> Option<Parser>)

  /** One subsection of the name section: its number must rise, and it must end where its size says. */
  datatype NameStep = BadName(used: nat) | GoodName(kind: nat, used: nat)

  function OneName(o: Options, at: nat, w: seq<Byte>, previous: Option<nat>): (s: NameStep)
    ensures s.used <= |w| && (s.GoodName? ==> s.used > 0)
  {
    match GetU32(w)
    case Bad => BadName(0)
    case Got(kind, r1) =>
      if previous.Some? && kind <= previous.value then BadName(|w| - |r1|) else
      match GetU32(r1)
      case Bad => BadName(|w| - |r1|)
      case Got(size, r2) =>
        var head := |w| - |r2|;
        if size > |r2| then BadName(head)
        else
          var v := NameSubsection(o, at + head, kind, r2[..size]);
          if !v.ok || v.used != size then BadName(head + v.used) else GoodName(kind, head + size)
  }

  function NameSection(o: Options, at: nat, w: seq<Byte>, previous: Option<nat>): (v: Verdict)
    ensures v.used <= |w|
    decreases |w|
  {
    if w == [] then Verdict(true, 0)
    else
      match OneName(o, at, w, previous)
      case BadName(used) => Verdict(false, used)
      case GoodName(kind, used) =>
        var v := NameSection(o, at + used, w[used..], Some(kind));
        Verdict(v.ok, used + v.used)
  }

  function NameSubsection(o: Options, at: nat, kind: nat, w: seq<Byte>): (v: Verdict)
    ensures v.used <= |w|
  {
    if kind > 2 then Verdict(true, |w|)
    else if w == [] then Verdict(true, 0)
    else Run(o.utf8, o.names(kind, at), [], w)
  }

  /** A custom section: its name, then what the name calls for. `names` tells a name section that
      was read. */
  datatype CustomVerdict = CustomVerdict(v: Verdict, names: bool)

  function Custom(o: Options, at: nat, w: seq<Byte>): (r: CustomVerdict)
    ensures r.v.used <= |w|
  {
    var t := TakeCounted(o.utf8, w);
    if t.value.None? then CustomVerdict(Verdict(false, t.used), false)
    else
      var name, rest := t.value.value.bytes, w[t.used..];
      if o.readDebugNames && name == [0x6e, 0x61, 0x6d, 0x65] then
        var v := NameSection(o, at + t.used, rest, None);
        CustomVerdict(Verdict(v.ok, t.used + v.used), v.ok)
      else
        match o.custom(name, at + t.used)
        case None => CustomVerdict(Verdict(true, |w|), false)
        case Some(c) =>
          var v := Run(o.utf8, c, [], rest);
          CustomVerdict(Verdict(v.ok, t.used + v.used), false)
  }

  // ----- files -----

  const NAME: seq<Byte> := [0x6e, 0x61, 0x6d, 0x65]
  const CUSTOM := 0
  const DATA_COUNT_SECTION := 12
  const EVENT := 13
  const SECTION_COUNT := 14

  /** GetSectionOrder: the event section comes after the globals, the data count before the code. */
  function Order(code: nat): nat {
    if code <= 6 then code
    else if code == EVENT then 7
    else if code <= 9 then code + 1
    else if code == DATA_COUNT_SECTION then 11
    else code + 2
  }

  /** The codes of the known sections in the order of section 5.5 of the WebAssembly Core Specification,
      with the events of the exception handling proposal behind the globals. */
  const SEQUENCE: seq<nat> := [1, 2, 3, 4, 5, 6, 13, 7, 8, 9, 12, 10, 11]

  predicate Before(a: nat, b: nat) {
    exists i, j :: 0 <= i < j < |SEQUENCE| && SEQUENCE[i] == a && SEQUENCE[j] == b
  }

  /** Comparing orders is comparing places in the sequence. */
  lemma OrderIsPlace(a: nat, b: nat)
    requires 0 < a < SECTION_COUNT && 0 < b < SECTION_COUNT
    ensures Order(a) < Order(b) <==> Before(a, b)
  {
    forall i | 0 <= i < |SEQUENCE| ensures Order(SEQUENCE[i]) == i + 1 {}
    assert SEQUENCE[Order(a) - 1] == a && SEQUENCE[Order(b) - 1] == b;
  }

  /** Nothing comes before a section of the same code, or both before and behind another. */
  lemma BeforeIsStrict(a: nat, b: nat)
    requires Before(a, b)
    ensures 0 < a <= 13 && 0 < b <= 13 && a != b && !Before(b, a)
  {
    forall i | 0 <= i < |SEQUENCE| ensures Order(SEQUENCE[i]) == i + 1 && 0 < SEQUENCE[i] < SECTION_COUNT {}
    OrderIsPlace(a, b);
    OrderIsPlace(b, a);
  }

  /** A section of a file: its code, where its header begins, and the bounds of its payload. */
  datatype Span = Span(code: nat, header: nat, start: nat, end: nat)

  /** There is a section with this header in the file. */
  predicate IsSection(data: seq<Byte>, s: Span) {
    && s.header < |data|
    && GetU32(data[s.header..]).Got?
    && var r1 := GetU32(data[s.header..]).rest;
       && GetU32(data[s.header..]).value == s.code && GetU32(r1).Got?
       && s.start == |data| - |GetU32(r1).rest| && s.end == s.start + GetU32(r1).value <= |data|
  }

  /** The sections lie one behind the other from `from` to `to`. */
  predicate Tiles(data: seq<Byte>, from: nat, to: nat, spans: seq<Span>)
    decreases |spans|
  {
    if spans == [] then from == to
    else spans[0].header == from && IsSection(data, spans[0]) && Tiles(data, spans[0].end, to, spans[1..])
  }

  function Payload(data: seq<Byte>, s: Span): seq<Byte>
    requires IsSection(data, s)
  {
    data[s.start..s.end]
  }

  predicate HasNames(o: Options, data: seq<Byte>, s: Span)
    requires IsSection(data, s)
  {
    s.code == 0 && Custom(o, s.start, Payload(data, s)).names
  }

  /** The reader of the section succeeds at exactly the section's end.  A custom section that fails
      may be tolerated; one that stops early is not. */
  predicate ContentsOk(o: Options, data: seq<Byte>, s: Span)
    requires IsSection(data, s)
  {
    if s.code == 0 then
      var v := Custom(o, s.start, Payload(data, s)).v;
      if v.ok then v.used == s.end - s.start else !o.failOnCustomSectionError
    else
      Run(o.utf8, o.known(s.code, s.start), [], Payload(data, s)) == Verdict(true, s.end - s.start)
  }

  /** A section with this code may come after known sections up to `last`, `names` telling whether a
      name section has been read. */
  predicate Allowed(o: Options, last: Option<nat>, names: bool, code: nat) {
    && code <= 13
    && (code != 0 ==>
          (last.None? || Before(last.value, code)) && !names
          && (code == 13 ==> o.exceptions) && (code == 12 ==> o.bulkMemory))
  }

  /** A section that belongs behind the others: known sections in order, none after the names. */
  predicate Belongs(o: Options, data: seq<Byte>, spans: seq<Span>, s: Span)
    requires IsSection(data, s) && forall i | 0 <= i < |spans| :: IsSection(data, spans[i])
  {
    && s.code <= 13
    && (s.code == 13 ==> o.exceptions) && (s.code == 12 ==> o.bulkMemory)
    && (s.code != 0 ==>
          forall i | 0 <= i < |spans| ::
            !HasNames(o, data, spans[i]) && (spans[i].code != 0 ==> Before(spans[i].code, s.code)))
  }

  ghost predicate InFile(data: seq<Byte>, spans: seq<Span>) { forall i | 0 <= i < |spans| :: IsSection(data, spans[i]) }

  ghost predicate Sound(o: Options, data: seq<Byte>, spans: seq<Span>)
    requires InFile(data, spans)
  {
    forall i | 0 <= i < |spans| :: Belongs(o, data, spans[..i], spans[i]) && ContentsOk(o, data, spans[i])
  }

  /** The file from `from` on is tiled by sections that are in order and readable. */
  ghost predicate GoodFile(o: Options, data: seq<Byte>, from: nat, spans: seq<Span>) {
    InFile(data, spans) && Tiles(data, from, |data|, spans) && Sound(o, data, spans)
  }

  lemma {:induction false} TilesInFile(data: seq<Byte>, from: nat, to: nat, spans: seq<Span>)
    requires Tiles(data, from, to, spans)
    ensures InFile(data, spans) && (from <= |data| ==> to <= |data|)
    decreases |spans|
  {
    hide IsSection;
    if spans != [] {
      EndInFile(data, spans[0]);
      TilesInFile(data, spans[0].end, to, spans[1..]);
      forall i | 0 <= i < |spans| ensures IsSection(data, spans[i]) {
        if i > 0 { assert spans[i] == spans[1..][i - 1]; }
      }
    }
  }

  lemma EndInFile(data: seq<Byte>, s: Span)
    requires IsSection(data, s)
    ensures s.header < s.start <= s.end <= |data|
  {}

  lemma {:induction false} TilesSnoc(data: seq<Byte>, from: nat, spans: seq<Span>, s: Span)
    requires Tiles(data, from, s.header, spans) && IsSection(data, s)
    ensures Tiles(data, from, s.end, spans + [s])
    decreases |spans|
  {
    hide IsSection;
    if spans == [] {
      assert [s][1..] == [];
    } else {
      TilesSnoc(data, spans[0].end, spans[1..], s);
      assert (spans + [s])[1..] == spans[1..] + [s];
    }
  }

  /** A header determines its section. */
  lemma SameSection(data: seq<Byte>, s: Span, s': Span)
    requires IsSection(data, s) && IsSection(data, s') && s.header == s'.header
    ensures s == s'
  {}

  /** A tiling of the whole file begins with any tiling of a part of it. */
  lemma {:induction false} TilesUnique(data: seq<Byte>, from: nat, to: nat, a: seq<Span>, b: seq<Span>)
    requires Tiles(data, from, to, a) && Tiles(data, from, |data|, b)
    ensures |a| <= |b| && a == b[..|a|] && Tiles(data, to, |data|, b[|a|..])
    decreases |a|
  {
    hide IsSection;
    if a == [] {
      assert b[0..] == b;
    } else {
      EndInFile(data, a[0]);
      SameSection(data, a[0], b[0]);
      TilesUnique(data, a[0].end, to, a[1..], b[1..]);
      assert b == [b[0]] + b[1..] && b[|a|..] == b[1..][|a| - 1..];
    }
  }

  // ----- what the reader remembers of the sections before -----

  /** The last known section so far, and whether there were names. */
  ghost predicate Remembers(o: Options, data: seq<Byte>, spans: seq<Span>, last: Option<nat>, names: bool)
    requires InFile(data, spans)
  {
    && (forall i | 0 <= i < |spans| :: spans[i].code < SECTION_COUNT)
    && (last.None? ==> forall i | 0 <= i < |spans| :: spans[i].code == CUSTOM)
    && (last.Some? ==>
          && 0 < last.value < SECTION_COUNT
          && (exists i | 0 <= i < |spans| :: spans[i].code != CUSTOM && spans[i].code == last.value)
          && forall i | 0 <= i < |spans| :: spans[i].code != CUSTOM ==> Order(spans[i].code) <= Order(last.value))
    && (names <==> exists i | 0 <= i < |spans| :: HasNames(o, data, spans[i]))
  }

  /** The codes seen so far are not after the last known section. */
  predicate SeenInOrder(seen: seq<bool>, last: Option<nat>)
    requires |seen| == SECTION_COUNT
  {
    && (last.Some? ==> 0 < last.value < SECTION_COUNT)
    && forall c | 1 <= c < SECTION_COUNT && seen[c] :: last.Some? && Order(c) <= Order(last.value)
  }

  lemma AllowedBelongs(o: Options, data: seq<Byte>, spans: seq<Span>, last: Option<nat>, names: bool, s: Span)
    requires InFile(data, spans) && IsSection(data, s) && Remembers(o, data, spans, last, names)
    ensures Allowed(o, last, names, s.code) <==> Belongs(o, data, spans, s)
  {
    hide HasNames, IsSection, Order, Before;
    if 0 < s.code < SECTION_COUNT && last.Some? {
      OrderIsPlace(last.value, s.code);
      forall i | 0 <= i < |spans| && spans[i].code != CUSTOM
        ensures Order(spans[i].code) < Order(s.code) <==> Before(spans[i].code, s.code)
      {
        OrderIsPlace(spans[i].code, s.code);
      }
    }
  }

  /** Only a section that comes later is allowed behind the last known one. */
  lemma AllowedLater(o: Options, last: Option<nat>, names: bool, code: nat)
    requires last.Some? ==> 0 < last.value < SECTION_COUNT
    requires 0 < code < SECTION_COUNT
    ensures Allowed(o, last, names, code)
       <==> (last.None? || Order(last.value) < Order(code)) && !names
            && (code == EVENT ==> o.exceptions) && (code == DATA_COUNT_SECTION ==> o.bulkMemory)
  {
    hide Order, Before;
    if last.Some? { OrderIsPlace(last.value, code); }
  }

  lemma CodeKnown(o: Options, last: Option<nat>, names: bool, code: nat)
    requires Allowed(o, last, names, code)
    ensures code < SECTION_COUNT
  {
    hide Before;
  }

  lemma RemembersNext(o: Options, data: seq<Byte>, spans: seq<Span>, last: Option<nat>, names: bool, s: Span)
    requires InFile(data, spans) && IsSection(data, s) && Remembers(o, data, spans, last, names)
    requires Allowed(o, last, names, s.code)
    ensures InFile(data, spans + [s])
    ensures Remembers(o, data, spans + [s], if s.code == CUSTOM then last else Some(s.code), names
            || HasNames(o, data, s))
  {
    hide HasNames, IsSection, Order, Before, Allowed;
    if 0 < s.code < SECTION_COUNT { AllowedLater(o, last, names, s.code); }
    CodeKnown(o, last, names, s.code);
    var all := spans + [s];
    assert all[|spans|] == s;
    if last.Some? {
      var i :| 0 <= i < |spans| && spans[i].code != CUSTOM && spans[i].code == last.value;
      assert all[i] == spans[i];
    }
    if names {
      var i :| 0 <= i < |spans| && HasNames(o, data, spans[i]);
      assert all[i] == spans[i];
    }
    if i :| 0 <= i < |all| && HasNames(o, data, all[i]) && i < |spans| { assert HasNames(o, data, spans[i]); }
  }

  lemma SoundNext(o: Options, data: seq<Byte>, spans: seq<Span>, s: Span)
    requires InFile(data, spans) && IsSection(data, s) && Belongs(o, data, spans, s)
    ensures InFile(data, spans + [s])
            && (Sound(o, data, spans + [s]) <==> Sound(o, data, spans) && ContentsOk(o, data, s))
  {
    hide IsSection, Belongs, ContentsOk;
    var all := spans + [s];
    assert all[|spans|] == s && all[..|spans|] == spans;
    forall i | 0 <= i < |spans| ensures all[..i] == spans[..i] && all[i] == spans[i] {}
    if Sound(o, data, all) {
      forall i | 0 <= i < |spans| ensures Belongs(o, data, spans[..i], spans[i]) && ContentsOk(o, data, spans[i]) {
        assert Belongs(o, data, all[..i], all[i]);
      }
    }
  }

  /** A file that cannot be read on from `offset` is not good, and neither is one whose sections so
      far are not. */
  lemma NotGood(o: Options, data: seq<Byte>, from: nat, offset: nat, spans: seq<Span>, b: seq<Span>)
    requires InFile(data, spans) && Tiles(data, from, offset, spans) && GoodFile(o, data, from, b)
    ensures Sound(o, data, spans)
    ensures offset < |data| ==>
              |spans| < |b| && b[|spans|].header == offset && Belongs(o, data, spans, b[|spans|])
                && ContentsOk(o, data, b[|spans|])
  {
    hide IsSection, Belongs, ContentsOk;
    TilesUnique(data, from, offset, spans, b);
    forall i | 0 <= i < |spans| ensures Belongs(o, data, spans[..i], spans[i]) && ContentsOk(o, data, spans[i]) {
      assert b[..i] == spans[..i] && b[i] == spans[i];
    }
    if offset < |data| {
      assert b[|spans|..] != [] && b[|spans|..][0] == b[|spans|];
      assert b[..|spans|] == spans;
    }
  }

  // ----- the reader -----

  datatype Pass = Abort | Finished(ok: bool)

  class BinaryReader {
    const data: seq<Byte>
    const o: Options
    var offset: nat
    var readEnd: nat
    var lastKnownSection: Option<nat>
    var didReadNamesSection: bool

    constructor (data: seq<Byte>, o: Options, offset: nat)
      requires offset <= |data|
      ensures this.data == data && this.o == o && this.offset == offset && readEnd == |data|
      ensures lastKnownSection == None && !didReadNamesSection
    {
      this.data, this.o, this.offset, readEnd := data, o, offset, |data|;
      lastKnownSection, didReadNamesSection := None, false;
    }

    predicate Valid()
      reads this`offset, this`readEnd
    {
      offset <= readEnd <= |data|
    }

    /** The bytes that may still be read. */
    function Window(): seq<Byte>
      requires Valid()
      reads this`offset, this`readEnd
    {
      data[offset..readEnd]
    }

    method Read(p: Prim) returns (value: Option<Value>)
      requires Valid()
      modifies this`offset
      ensures Valid() && old(offset) <= offset
      ensures Taken(value, offset - old(offset)) == Take(o.utf8, p, old(Window()))
              && Window() == old(Window())[offset - old(offset)..]
    {
      hide Take;
      var t := Take(o.utf8, p, Window());
      offset := offset + t.used;
      value := t.value;
    }

    method ReadU32Leb128() returns (value: Option<nat>)
      requires Valid()
      modifies this`offset
      ensures Valid()
      ensures match GetU32(old(Window())) { case Bad => value == None && offset == old(offset)
                                            case Got(v, rest) =>
                                              value == Some(v) && Window() == rest && offset > old(offset) }
    {
      hide GetU32;
      var g := GetU32(Window());
      if g.Bad? { return None; }
      ghost var was := Window();
      offset := offset + (|Window()| - |g.rest|);
      assert Window() == was[|was| - |g.rest|..];
      value := Some(g.value);
    }

    method ReadContents(c: Parser) returns (ok: bool)
      requires Valid()
      modifies this`offset
      ensures Valid() && old(offset) <= offset && Verdict(ok, offset - old(offset)) == Run(o.utf8, c, [], old(Window()))
    {
      hide Take;
      var read := [];
      ghost var all := Run(o.utf8, c, [], Window());
      while c(read).Want?
        invariant Valid() && old(offset) <= offset
        invariant var v := Run(o.utf8, c, read, Window()); all == Verdict(v.ok, offset - old(offset) + v.used)
        decreases readEnd - offset
      {
        var value := Read(c(read).prim);
        if value.None? { return false; }
        read := read + [value.value];
      }
      ok := c(read).ok;
    }

    /** A subsection of the name section, within the limit set for it. */
    method ReadNameSubsection(kind: nat) returns (ok: bool)
      requires Valid()
      modifies this`offset
      ensures Valid() && old(offset) <= offset
      ensures Verdict(ok, offset - old(offset)) == NameSubsection(o, old(offset), kind, old(Window()))
    {
      if kind > 2 {
        offset := readEnd;
        ok := true;
      } else if offset == readEnd {
        ok := true;
      } else {
        ok := ReadContents(o.names(kind, offset));
      }
    }

    method ReadOneName(previous: Option<nat>) returns (kind: Option<nat>)
      requires Valid()
      modifies this`offset, this`readEnd
      ensures Valid() && old(offset) <= offset && readEnd == old(readEnd)
      ensures var s := OneName(o, old(offset), old(Window()), previous);
              s.used == offset - old(offset) && kind == if s.GoodName? then Some(s.kind) else None
    {
      hide GetU32, NameSubsection;
      kind := ReadU32Leb128();
      if kind.None? { return; }
      if previous.Some? && kind.value <= previous.value { return None; }
      var size := ReadU32Leb128();
      if size.None? { return None; }
      if offset + size.value > readEnd { return None; }
      ghost var r2 := Window();
      var saved := readEnd;
      var subsectionEnd := offset + size.value;
      readEnd := subsectionEnd;
      assert Window() == r2[..size.value];
      var ok := ReadNameSubsection(kind.value);
      var finished := offset == subsectionEnd;
      readEnd := saved;
      if !ok || !finished { return None; }
    }

    method ReadNameSection() returns (ok: bool)
      requires Valid()
      modifies this`offset, this`readEnd
      ensures Valid() && old(offset) <= offset && readEnd == old(readEnd)
      ensures Verdict(ok, offset - old(offset)) == NameSection(o, old(offset), old(Window()), None)
    {
      hide OneName;
      var previous := None;
      ghost var all := NameSection(o, offset, Window(), None);
      while offset < readEnd
        invariant Valid() && old(offset) <= offset && readEnd == old(readEnd)
        invariant var v := NameSection(o, offset, Window(), previous);
                  all == Verdict(v.ok, offset - old(offset) + v.used)
        decreases readEnd - offset
      {
        ghost var w, at := Window(), offset;
        var kind := ReadOneName(previous);
        if kind.None? { return false; }
        assert Window() == w[offset - at..];
        previous := kind;
      }
      ok := true;
    }

    method ReadCustomSection() returns (ok: bool)
      requires Valid()
      modifies this`offset, this`readEnd, this`didReadNamesSection
      ensures Valid() && old(offset) <= offset && readEnd == old(readEnd)
      ensures var r := Custom(o, old(offset), old(Window()));
              Verdict(ok, offset - old(offset)) == r.v && didReadNamesSection == (old(didReadNamesSection) || r.names)
    {
      hide TakeCounted, NameSection, Run;
      var name := Read(PStr);
      if name.None? { return false; }
      if o.readDebugNames && name.value.bytes == NAME {
        ok := ReadNameSection();
        if !ok { return false; }
        didReadNamesSection := true;
      } else {
        var c := o.custom(name.value.bytes, offset);
        if c.None? {
          offset := readEnd;
          ok := true;
        } else {
          ok := ReadContents(c.value);
        }
      }
    }

    /** The payload of a section that may come here, and what becomes of the result. */
    method ReadPayload(s: Span) returns (pass: Pass)
      requires Valid() && IsSection(data, s) && offset == s.start && readEnd == s.end && s.code < SECTION_COUNT
      requires (s.code == EVENT ==> o.exceptions) && (s.code == DATA_COUNT_SECTION ==> o.bulkMemory)
      modifies this`offset, this`readEnd, this`didReadNamesSection
      ensures readEnd == s.end && Valid()
      ensures pass.Finished? ==> pass.ok == ContentsOk(o, data, s) && offset == s.end
      ensures didReadNamesSection == (old(didReadNamesSection) || HasNames(o, data, s))
      ensures pass.Abort? ==> !ContentsOk(o, data, s)
    {
      hide Custom, Run, IsSection;
      var result := true;
      var stop := o.stopOnFirstError;
      var sectionResult;
      if s.code == CUSTOM {
        sectionResult := ReadCustomSection();
        if o.failOnCustomSectionError {
          result := sectionResult;
        } else {
          stop := false;
        }
      } else {
        sectionResult := ReadContents(o.known(s.code, offset));
        result := sectionResult;
      }
      if sectionResult && offset != readEnd {
        sectionResult := false;
        result := false;
      }
      if !sectionResult {
        if stop { return Abort; }
        offset := readEnd;
      }
      pass := Finished(result);
    }

    /** One round of the loop of ReadSections: on every input it ends in an error, or exactly at the
        end of the section. */
    method ReadSection(seenSectionCode: seq<bool>) returns (pass: Pass, s: Span)
      requires Valid() && readEnd == |data| && offset < |data| && |seenSectionCode| == SECTION_COUNT
      requires SeenInOrder(seenSectionCode, lastKnownSection)
      modifies this
      ensures Valid() && readEnd == |data|
      ensures pass.Finished? ==>
                && IsSection(data, s) && s.header == old(offset) && offset == s.end
                && Allowed(o, old(lastKnownSection), old(didReadNamesSection), s.code)
                  && pass.ok == ContentsOk(o, data, s)
                && lastKnownSection == (if s.code == CUSTOM then old(lastKnownSection) else Some(s.code))
                && didReadNamesSection == (old(didReadNamesSection) || HasNames(o, data, s))
      ensures pass.Abort? ==>
                forall s': Span | s'.header == old(offset) && IsSection(data, s') ::
                  !(Allowed(o, old(lastKnownSection), old(didReadNamesSection), s'.code) && ContentsOk(o, data, s'))
    {
      hide GetU32, ContentsOk, HasNames, Before, Order;
      ghost var last, names := lastKnownSection, didReadNamesSection;
      pass := Abort;
      s := Span(0, offset, 0, 0);
      var header := offset;
      assert data[header..] == Window();
      var code := ReadU32Leb128();
      if code.None? { return; }
      var size := ReadU32Leb128();
      if size.None? { return; }
      if code.value >= SECTION_COUNT { return; }
      if code.value != CUSTOM { AllowedLater(o, last, names, code.value); }
      if code.value != CUSTOM && seenSectionCode[code.value] { return; }
      if offset + size.value > |data| { return; }
      s := Span(code.value, header, offset, offset + size.value);
      assert IsSection(data, s);
      OnlyThis(s);
      if lastKnownSection.Some? && s.code != CUSTOM && Order(s.code) <= Order(lastKnownSection.value) { return; }
      if didReadNamesSection && s.code != CUSTOM { return; }
      if s.code == EVENT && !o.exceptions { return; }
      if s.code == DATA_COUNT_SECTION && !o.bulkMemory { return; }
      readEnd := offset + size.value;
      pass := ReadPayload(s);
      readEnd := |data|;
      if pass.Finished? && s.code != CUSTOM {
        lastKnownSection := Some(s.code);
      }
    }

    lemma OnlyThis(s: Span)
      requires IsSection(data, s)
      ensures forall s': Span | s'.header == s.header && IsSection(data, s') :: s' == s
    {
      forall s': Span | s'.header == s.header && IsSection(data, s') ensures s' == s {
        SameSection(data, s, s');
      }
    }

    /** The sections of the file, one pass each.  Whatever the input, the passes that were completed
        tile the file up to where the last of them ended.  The result is Ok if and only if sections
        that are in order and readable tile the whole file. */
    method ReadSections() returns (ok: bool, spans: seq<Span>)
      requires Valid() && readEnd == |data| && lastKnownSection == None && !didReadNamesSection
      modifies this
      ensures Valid()
      ensures Tiles(data, old(offset), if spans == [] then old(offset) else Last(spans).end, spans)
      ensures ok ==> GoodFile(o, data, old(offset), spans)
      ensures !ok ==> forall b :: !GoodFile(o, data, old(offset), b)
    {
      hide IsSection, HasNames, ContentsOk, Order, Allowed, Belongs;
      ok, spans := true, [];
      ghost var from := offset;
      var seenSectionCode := seq(SECTION_COUNT, _ => false);
      while offset < |data|
        invariant Valid() && readEnd == |data| && from <= offset
        invariant offset == if spans == [] then from else Last(spans).end
        invariant InFile(data, spans) && Tiles(data, from, offset, spans)
        invariant Remembers(o, data, spans, lastKnownSection, didReadNamesSection)
        invariant |seenSectionCode| == SECTION_COUNT && SeenInOrder(seenSectionCode, lastKnownSection)
        invariant ok <==> Sound(o, data, spans)
        decreases |data| - offset
      {
        ghost var at, last, names := offset, lastKnownSection, didReadNamesSection;
        var pass, s := ReadSection(seenSectionCode);
        if pass.Abort? {
          Stuck(from, at, spans, last, names);
          return false, spans;
        }
        AllowedBelongs(o, data, spans, last, names, s);
        RemembersNext(o, data, spans, last, names, s);
        SoundNext(o, data, spans, s);
        TilesSnoc(data, from, spans, s);
        EndInFile(data, s);
        if s.code != CUSTOM {
          LaterIsSeen(seenSectionCode, last, s.code, o, names);
          seenSectionCode := seenSectionCode[s.code := true];
        }
        ok := ok && pass.ok;
        spans := spans + [s];
      }
      if !ok { NeverGood(from, spans); }
    }

    lemma LaterIsSeen(seen: seq<bool>, last: Option<nat>, code: nat, o: Options, names: bool)
      requires |seen| == SECTION_COUNT && SeenInOrder(seen, last) && Allowed(o, last, names, code) && code != CUSTOM
      ensures code < SECTION_COUNT && SeenInOrder(seen[code := true], Some(code))
    {
      hide Order, Before, Allowed;
      CodeKnown(o, last, names, code);
      AllowedLater(o, last, names, code);
    }

    lemma Stuck(from: nat, at: nat, spans: seq<Span>, last: Option<nat>, names: bool)
      requires InFile(data, spans) && Tiles(data, from, at, spans) && at < |data|
               && Remembers(o, data, spans, last, names)
      requires forall s': Span | s'.header == at && IsSection(data, s') ::
                 !(Allowed(o, last, names, s'.code) && ContentsOk(o, data, s'))
      ensures forall b :: !GoodFile(o, data, from, b)
    {
      hide IsSection, Belongs, ContentsOk, Allowed, Tiles, Remembers;
      forall b ensures !GoodFile(o, data, from, b) {
        if GoodFile(o, data, from, b) {
          NotGood(o, data, from, at, spans, b);
          AllowedBelongs(o, data, spans, last, names, b[|spans|]);
        }
      }
    }

    lemma NeverGood(from: nat, spans: seq<Span>)
      requires InFile(data, spans) && Tiles(data, from, |data|, spans) && !Sound(o, data, spans)
      ensures forall b :: !GoodFile(o, data, from, b)
    {
      hide IsSection, Belongs, ContentsOk, Tiles, Sound;
      forall b ensures !GoodFile(o, data, from, b) {
        if GoodFile(o, data, from, b) { NotGood(o, data, from, |data|, spans, b); }
      }
    }
  }
}
