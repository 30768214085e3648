/**
  Reading an address from text: one to four numbers in the notation of C, separated by dots.
*/
module InetAton {

  import opened ByteOps
  import opened InetAddr
  import opened InetNumber

  const PARTS: nat := 4

  /** The values of the numbers, and the place behind the last one. */
  datatype Reading = Reading(values: seq<Word32>, end: nat)

  /** Numbers with dots between them, from a position on, behind those that are already stored. */
  function Read(text: string, at: nat, stored: seq<Word32>): Option<Reading>
    requires at <= |text|
    decreases |text| - at
  {
    if !IsDecimal(At(text, at)) then None
    else
      var end := NumberEnd(text, at);
      var values := stored + [NumberValue(text, at)];
      if At(text, end) != '.' then Some(Reading(values, end))
      else if |stored| >= PARTS - 1 then None
      else Read(text, end + 1, values)
  }

  // ----- the address

  /** A 32-bit shift to the left drops what leaves the word. */
  function Shift(v: Word32, factor: nat): Word32 {
    Wrap(v * factor)
  }

  /** The address in host order: the last number fills what the others leave over. */
  function Concoct(parts: seq<Word32>): Option<Word32>
    requires 1 <= |parts| <= PARTS
  {
    var val := parts[|parts| - 1];
    if |parts| == 1 then Some(val)
    else if |parts| == 2 then
      if val > 0xff_ffff then None else Some(Or(val, Shift(parts[0], 0x100_0000)))
    else if |parts| == 3 then
      if val > 0xffff then None else Some(Or(val, Or(Shift(parts[0], 0x100_0000), Shift(parts[1], 0x1_0000))))
    else
      if val > 0xff then None
      else Some(Or(val, Or(Or(Shift(parts[0], 0x100_0000), Shift(parts[1], 0x1_0000)), Shift(parts[2], 0x100))))
  }

  lemma {:induction false} ReadCount(text: string, at: nat, stored: seq<Word32>)
    requires at <= |text| && |stored| < PARTS && Read(text, at, stored).Some?
    ensures var r := Read(text, at, stored).value; |stored| < |r.values| <= PARTS && r.end <= |text|
    decreases |text| - at
  {
    var end := NumberEnd(text, at);
    if At(text, end) == '.' { ReadCount(text, end + 1, stored + [NumberValue(text, at)]); }
  }

  /** inet_aton; the result is in host order. */
  function Aton(text: string): Option<Word32> {
    match Read(text, 0, [])
    case None => None
    case Some(r) =>
      ReadCount(text, 0, []);
      if At(text, r.end) != '\0' && (!IsPrint(At(text, r.end)) || !IsSpace(At(text, r.end))) then None
      else Concoct(r.values)
  }

  // ----- the C loop

  /** The numbers of the text: all but the last are stored in parts. */
  method ReadNumbers(text: string, parts: array<Word32>) returns (ok: bool, pp: nat, val: Word32, cp: nat)
    requires |text| > 0 && text[|text| - 1] == '\0' && parts.Length == PARTS
    modifies parts
    ensures ok <==> Read(text, 0, []).Some?
    ensures ok ==> pp < PARTS && cp < |text| && Read(text, 0, []) == Some(Reading(parts[..pp] + [val], cp))
  {
    ok, pp, val, cp := false, 0, 0, 0;
    while true
      invariant pp < PARTS && cp < |text|
      invariant Read(text, cp, parts[..pp]) == Read(text, 0, [])
      decreases |text| - cp
    {
      if !IsDecimal(text[cp]) {
        return;
      }
      ghost var stored := parts[..pp];
      val, cp := ReadNumber(text, cp);
      if text[cp] != '.' {
        ok := true;
        return;
      }
      if pp >= PARTS - 1 {
        return;
      }
      parts[pp] := val;
      pp := pp + 1;
      assert parts[..pp] == stored + [val];
      cp := cp + 1;
    }
  }

  method InetAton(text: string) returns (ok: bool, addr: Word32)
    requires |text| > 0 && text[|text| - 1] == '\0'
    ensures ok <==> Aton(text).Some?
    ensures ok ==> addr == Htonl(Aton(text).value)
  {
    var parts := new Word32[PARTS](_ => 0);
    var pp: nat, val: Word32, cp: nat;
    addr := 0;
    ok, pp, val, cp := ReadNumbers(text, parts);
    if !ok {
      return;
    }
    var c := text[cp];
    if c != '\0' && (!IsPrint(c) || !IsSpace(c)) {
      ok := false;
      return;
    }
    var host := Concoct(parts[..pp] + [val]);
    ok := host.Some?;
    if ok {
      addr := Htonl(host.value);
    }
  }

  // ----- which texts are addresses

  /** The numbers of a text. */
  datatype Numbers = Last(n: string) | More(n: string, rest: Numbers)

  function Count(ns: Numbers): (k: nat)
    ensures k > 0
  {
    if ns.Last? then 1 else 1 + Count(ns.rest)
  }

  predicate AllNumerals(ns: Numbers) {
    IsNumeral(ns.n) && (ns.More? ==> AllNumerals(ns.rest))
  }

  /** Their values, behind those that are already stored. */
  function Values(stored: seq<Word32>, ns: Numbers): (r: seq<Word32>)
    requires AllNumerals(ns)
    ensures |r| == |stored| + Count(ns)
    decreases ns
  {
    var values := stored + [NumeralValue(ns.n)];
    if ns.Last? then values else Values(values, ns.rest)
  }

  function LastValue(ns: Numbers): Word32
    requires AllNumerals(ns)
  {
    if ns.Last? then NumeralValue(ns.n) else LastValue(ns.rest)
  }

  lemma {:induction false} LastOfValues(stored: seq<Word32>, ns: Numbers)
    requires AllNumerals(ns)
    ensures Values(stored, ns)[|stored| + Count(ns) - 1] == LastValue(ns)
    decreases ns
  {
    if ns.More? { LastOfValues(stored + [NumeralValue(ns.n)], ns.rest); }
  }

  /** From `at` to `end` the text is these numbers with dots between them. */
  predicate Joined(ns: Numbers, text: string, at: nat, end: nat)
    decreases ns
  {
    && IsNumeral(ns.n) && Occurs(ns.n, text, at)
    && var m := at + |ns.n|;
       match ns
       case Last(_) => m == end
       case More(_, rest) => At(text, m) == '.' && Joined(rest, text, m + 1, end)
  }

  lemma {:induction false} JoinedNumerals(ns: Numbers, text: string, at: nat, end: nat)
    requires Joined(ns, text, at, end)
    ensures AllNumerals(ns) && at <= end <= |text|
    decreases ns
  {
    if ns.More? { JoinedNumerals(ns.rest, text, at + |ns.n| + 1, end); }
  }

  /** What may follow the last number. */
  predicate Ends(c: char) {
    c == '\0' || c == ' '
  }

  /** What is read are the values of numbers that the text is made of. */
  lemma {:induction false} ReadSound(text: string, at: nat, stored: seq<Word32>) returns (ns: Numbers)
    requires at <= |text| && Read(text, at, stored).Some?
    ensures Joined(ns, text, at, Read(text, at, stored).value.end)
    ensures AllNumerals(ns) && Read(text, at, stored).value.values == Values(stored, ns)
    decreases |text| - at
  {
    var end := NumberEnd(text, at);
    var n := NumeralCut(text, at);
    if At(text, end) == '.' {
      var rest := ReadSound(text, end + 1, stored + [NumeralValue(n)]);
      ns := More(n, rest);
    } else {
      ns := Last(n);
    }
  }

  /** A text that is made of numbers is read completely. */
  lemma {:induction false} ReadComplete(ns: Numbers, text: string, at: nat, end: nat, stored: seq<Word32>)
    requires at <= |text| && Joined(ns, text, at, end) && AllNumerals(ns) && Ends(At(text, end))
    requires |stored| + Count(ns) <= PARTS
    ensures Read(text, at, stored) == Some(Reading(Values(stored, ns), end))
    decreases ns
  {
    NumeralStops(ns.n, text, at);
    if ns.More? { ReadComplete(ns.rest, text, at + |ns.n| + 1, end, stored + [NumeralValue(ns.n)]); }
  }

  /** The text begins with at most four numbers with dots between them, and a NUL or a blank follows. */
  predicate Denotes(text: string, ns: Numbers, end: nat) {
    Joined(ns, text, 0, end) && Ends(At(text, end)) && Count(ns) <= 4
  }

  /** The last number fits what the others leave of the 32 bits. */
  predicate LastFits(ns: Numbers)
    requires AllNumerals(ns)
  {
    LastValue(ns) < Limit(Count(ns))
  }

  function Limit(count: nat): nat {
    if count == 1 then 0x1_0000_0000 else if count == 2 then 0x100_0000 else if count == 3 then 0x1_0000 else 0x100
  }

  lemma AtonValue(text: string, ns: Numbers, end: nat)
    requires Denotes(text, ns, end)
    ensures AllNumerals(ns) && Aton(text) == Concoct(Values([], ns))
  {
    JoinedNumerals(ns, text, 0, end);
    ReadComplete(ns, text, 0, end, []);
  }

  lemma ConcoctFits(parts: seq<Word32>)
    requires 0 < |parts| <= PARTS
    ensures Concoct(parts).Some? <==> parts[|parts| - 1] < Limit(|parts|)
  {
  }

  lemma AtonFits(text: string, ns: Numbers, end: nat)
    requires Denotes(text, ns, end)
    ensures AllNumerals(ns) && (Aton(text).Some? <==> LastFits(ns))
  {
    AtonValue(text, ns, end);
    ConcoctFits(Values([], ns));
    LastOfValues([], ns);
  }

  /** inet_aton accepts a text exactly if it is of this form; nothing is asked of the other numbers. */
  lemma AtonAccepts(text: string)
    ensures Aton(text).Some? <==> exists ns, end :: Denotes(text, ns, end) && AllNumerals(ns) && LastFits(ns)
  {
    if Aton(text).Some? {
      var end := Read(text, 0, []).value.end;
      ReadCount(text, 0, []);
      var ns := ReadSound(text, 0, []);
      assert Denotes(text, ns, end);
      AtonFits(text, ns, end);
    }
    forall ns, end | Denotes(text, ns, end) && AllNumerals(ns) && LastFits(ns) ensures Aton(text).Some? {
      AtonFits(text, ns, end);
    }
  }

  lemma ShiftModulo(v: Word32)
    ensures Shift(v, 0x100_0000) == v % 0x100 * 0x100_0000 == Shift(v % 0x100, 0x100_0000)
  {
    WrapIsModulo(v * 0x100_0000);
    AddMultiple(v % 0x100 * 0x100_0000, v / 0x100);
    assert v * 0x100_0000 == v / 0x100 * 0x1_0000_0000 + v % 0x100 * 0x100_0000;
  }

  /** A first number above 255 is not refused. */
  lemma FirstPartModulo(parts: seq<Word32>)
    requires 2 <= |parts| <= PARTS
    ensures Concoct(parts) == Concoct(parts[0 := parts[0] % 0x100])
  {
    ShiftModulo(parts[0]);
  }

  lemma ShiftedBytes(p: byte)
    ensures Shift(p, 0x100_0000) == p * 0x100_0000 && Shift(p, 0x1_0000) == p * 0x1_0000 && Shift(p, 0x100) == p * 0x100
  {
  }

  lemma OrOfBytes(p: byte, q: byte, r: byte, s: byte)
    ensures Or(p * 0x100_0000, q * 0x1_0000) == (p * 0x100 + q) * 0x1_0000
    ensures Or((p * 0x100 + q) * 0x1_0000, r * 0x100) == (p * 0x1_0000 + q * 0x100 + r) * 0x100
    ensures Or(s, (p * 0x1_0000 + q * 0x100 + r) * 0x100) == p * 0x100_0000 + q * 0x1_0000 + r * 0x100 + s
  {
    Pow2Of32();
    Pow2Of8();
    OrAdds(q * 0x1_0000, p, 24);
    OrAdds(r * 0x100, p * 0x100 + q, 16);
    OrAdds(s, p * 0x1_0000 + q * 0x100 + r, 8);
  }

  /** Four numbers, each a byte: the address with these bytes, the first on top. */
  lemma FourParts(p: byte, q: byte, r: byte, s: byte)
    ensures Concoct([p, q, r, s]) == Some(p * 0x100_0000 + q * 0x1_0000 + r * 0x100 + s)
  {
    ShiftedBytes(p);
    ShiftedBytes(q);
    ShiftedBytes(r);
    OrOfBytes(p, q, r, s);
  }

  // ----- texts built from numbers

  /** Numbers with dots between them. */
  function Dotted(ns: Numbers): string {
    if ns.Last? then ns.n else ns.n + "." + Dotted(ns.rest)
  }

  lemma OccursBetween(before: string, n: string, w: string)
    ensures Occurs(n, before + n + w, |before|) && At(before + n + w, |before| + |n|) == At(w, 0)
  {
  }

  lemma Regroup(before: string, n: string, w: string, rest: string)
    ensures before + (n + "." + w) + rest == before + n + "." + w + rest == before + n + ("." + w + rest)
  {
  }

  /** Such a text is made of these numbers, wherever it stands. */
  lemma {:induction false} DottedJoined(before: string, ns: Numbers, rest: string)
    requires AllNumerals(ns)
    ensures Joined(ns, before + Dotted(ns) + rest, |before|, |before| + |Dotted(ns)|)
    decreases ns
  {
    if ns.Last? {
      OccursBetween(before, ns.n, rest);
    } else {
      var w := Dotted(ns.rest);
      DottedJoined(before + ns.n + ".", ns.rest, rest);
      Regroup(before, ns.n, w, rest);
      OccursBetween(before, ns.n, "." + w + rest);
    }
  }

  lemma NothingBefore(w: string, rest: string)
    ensures "" + w + rest == w + rest && At(w + rest, |w|) == At(rest, 0)
  {
  }

  lemma DottedFromStart(ns: Numbers, rest: string)
    requires AllNumerals(ns)
    ensures Joined(ns, Dotted(ns) + rest, 0, |Dotted(ns)|)
  {
    DottedJoined("", ns, rest);
    NothingBefore(Dotted(ns), rest);
  }

  lemma DottedDenotes(ns: Numbers, rest: string)
    requires Count(ns) <= PARTS && AllNumerals(ns) && Ends(At(rest, 0))
    ensures Denotes(Dotted(ns) + rest, ns, |Dotted(ns)|)
  {
    DottedFromStart(ns, rest);
    NothingBefore(Dotted(ns), rest);
  }

  lemma DottedRead(ns: Numbers, rest: string)
    requires Count(ns) <= PARTS && AllNumerals(ns) && Ends(At(rest, 0))
    ensures Aton(Dotted(ns) + rest) == Concoct(Values([], ns))
  {
    DottedDenotes(ns, rest);
    AtonValue(Dotted(ns) + rest, ns, |Dotted(ns)|);
  }

  // ----- the round trip

  lemma {:induction false} DecimalDigits(n: nat)
    ensures var s := Decimal(n);
            AllDigits(s, 0, |s|, 10) && Value(s, 0, |s|, 10) == n && (n > 0 ==> s[0] != '0')
  {
    var s := Decimal(n);
    if n >= 10 {
      DecimalDigits(n / 10);
      SameValue(Decimal(n / 10), s, 0, 0, |s| - 1, 10);
    } else {
      assert Value(s, 0, 0, 10) == 0;
    }
  }

  /** No decimal number that is printed reads as octal, except 0, which is the same in both. */
  lemma DecimalIsNumeral(n: Word32)
    ensures IsNumeral(Decimal(n)) && NumeralValue(Decimal(n)) == n
  {
    DecimalDigits(n);
  }

  /** Four decimal numbers. */
  function FourNumbers(p: Word32, q: Word32, r: Word32, s: Word32): Numbers {
    More(Decimal(p), More(Decimal(q), More(Decimal(r), Last(Decimal(s)))))
  }

  lemma OneMore(stored: seq<Word32>, n: Word32, rest: Numbers)
    requires AllNumerals(rest)
    ensures AllNumerals(More(Decimal(n), rest))
    ensures Values(stored, More(Decimal(n), rest)) == Values(stored + [n], rest)
  {
    DecimalIsNumeral(n);
  }

  lemma FourValues(p: Word32, q: Word32, r: Word32, s: Word32)
    ensures AllNumerals(FourNumbers(p, q, r, s)) && Count(FourNumbers(p, q, r, s)) == 4
    ensures Values([], FourNumbers(p, q, r, s)) == [p, q, r, s]
  {
    DecimalIsNumeral(s);
    var d := Last(Decimal(s));
    var c := More(Decimal(r), d);
    var b := More(Decimal(q), c);
    OneMore([p, q], r, d);
    OneMore([p], q, c);
    OneMore([], p, b);
    assert [] + [p] == [p] && [p] + [q] == [p, q] && [p, q] + [r] == [p, q, r] && [p, q, r] + [s] == [p, q, r, s];
    assert Count(d) == 1 && Count(c) == 2 && Count(b) == 3;
  }

  lemma {:induction false} DotsFront(bytes: seq<byte>)
    requires bytes != []
    ensures Dots(bytes) == Decimal(bytes[0]) + ("." + Dots(bytes[1..]))
  {
    var k := |bytes| - 1;
    if k > 0 {
      DotsFront(bytes[..k]);
      assert bytes[..k][1..] == bytes[1..][..k - 1];
    }
  }

  function Undotted(bytes: seq<byte>): string
    requires bytes != []
  {
    DotsLength(bytes);
    Dots(bytes)[..|Dots(bytes)| - 1]
  }

  lemma UndottedFront(bytes: seq<byte>)
    requires |bytes| > 1
    ensures Undotted(bytes) == Decimal(bytes[0]) + "." + Undotted(bytes[1..])
  {
    DotsFront(bytes);
  }

  lemma UndottedMore(b: byte, bytes: seq<byte>, ns: Numbers)
    requires bytes != [] && Undotted(bytes) == Dotted(ns)
    ensures Undotted([b] + bytes) == Dotted(More(Decimal(b), ns))
  {
    UndottedFront([b] + bytes);
    assert ([b] + bytes)[1..] == bytes;
  }

  lemma TextIsDotted(p: byte, q: byte, r: byte, s: byte)
    ensures Undotted([p, q, r, s]) == Dotted(FourNumbers(p, q, r, s))
  {
    DotsFront([s]);
    assert Undotted([s]) == Decimal(s);
    UndottedMore(r, [s], Last(Decimal(s)));
    assert [r] + [s] == [r, s] && [q] + [r, s] == [q, r, s] && [p] + [q, r, s] == [p, q, r, s];
    UndottedMore(q, [r, s], More(Decimal(r), Last(Decimal(s))));
    UndottedMore(p, [q, r, s], More(Decimal(q), More(Decimal(r), Last(Decimal(s)))));
  }

  lemma TextRead(q: Quad, rest: string)
    requires Ends(At(rest, 0))
    ensures Aton(Undotted(Octets(q)) + rest) == Concoct(Octets(q))
  {
    TextIsDotted(q.b0, q.b1, q.b2, q.b3);
    FourValues(q.b0, q.b1, q.b2, q.b3);
    DottedRead(FourNumbers(q.b0, q.b1, q.b2, q.b3), rest);
  }

  lemma ConcoctOctets(q: Quad)
    ensures Concoct(Octets(q)) == Some(Load(Reversed(q)))
  {
    FourParts(q.b0, q.b1, q.b2, q.b3);
  }

  lemma NetworkOrder(q: Quad)
    ensures Htonl(Load(Reversed(q))) == Load(q)
  {
    var v := Load(Reversed(q));
    HtonlReverses(v);
    MemoryOfLoad(Reversed(q));
    LoadOfMemory(Htonl(v));
  }

  /** The text that inet_ntoa writes, with its NUL and whatever the buffer holds behind that, is read
      back as the same address, for each of the 2^32. */
  lemma RoundTrip(addr: Word32, rest: string)
    requires Ends(At(rest, 0))
    ensures Aton(Text(addr) + rest).Some?
    ensures Htonl(Aton(Text(addr) + rest).value) == addr
  {
    TextRead(Memory(addr), rest);
    ConcoctOctets(Memory(addr));
    NetworkOrder(Memory(addr));
    LoadOfMemory(addr);
  }
}
