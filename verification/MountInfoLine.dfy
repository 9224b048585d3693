/** MountParseMountInfoLine against a printer of mountinfo lines. */
module MountInfoLine {
  import opened Common
  import opened MountInfo

  datatype Entry = Entry(
    id: int, parentId: int, major: int, minor: int,
    root: seq<Byte>, mountPoint: seq<Byte>, mountOptions: seq<Byte>,
    fileSystemType: seq<Byte>, source: seq<Byte>, superOptions: seq<Byte>)

  const BLANK_ENTRY := Entry(0, 0, 0, 0, [], [], [], [], [], [])

  const MOUNT_FIELD_MAX := 9

  // ----- strtok_r -----

  function Skipped(s: seq<Byte>, sep: Byte): (r: seq<Byte>)
    ensures |r| <= |s|
  {
    if s != [] && s[0] == sep then Skipped(s[1..], sep) else s
  }

  function Taken(s: seq<Byte>, sep: Byte): (r: seq<Byte>)
    ensures r <= s
  {
    if s == [] || s[0] == sep then [] else [s[0]] + Taken(s[1..], sep)
  }

  /** A token and the text behind the separator that ended it. */
  datatype Cut = Cut(token: seq<Byte>, rest: seq<Byte>)

  /** strtok_r with a single separator; None is NULL. */
  function Strtok(s: seq<Byte>, sep: Byte): (r: Option<Cut>)
    ensures r.Some? ==> |r.value.rest| < |s|
  {
    var t := Skipped(s, sep);
    if t == [] then None
    else
      var token := Taken(t, sep);
      Some(Cut(token, if |token| == |t| then [] else t[|token| + 1..]))
  }

  /** MountNextField: the last field runs to the end of the line. */
  function NextField(s: seq<Byte>, field: nat): (r: Option<Cut>)
    ensures r.Some? ==> |r.value.rest| < |s|
  {
    if field < MOUNT_FIELD_MAX then Strtok(s, SPACE) else Strtok(s, NEWLINE)
  }

  lemma {:induction false} TakenUpTo(token: seq<Byte>, sep: Byte, rest: seq<Byte>)
    requires sep !in token
    ensures Taken(token + [sep] + rest, sep) == token
  {
    var s := token + [sep] + rest;
    if token != [] {
      assert s[0] == token[0] && s[0] in token && s[1..] == token[1..] + [sep] + rest;
      TakenUpTo(token[1..], sep, rest);
    }
  }

  lemma StrtokInFront(token: seq<Byte>, sep: Byte, rest: seq<Byte>)
    requires token != [] && sep !in token
    ensures Strtok(token + [sep] + rest, sep) == Some(Cut(token, rest))
  {
    var s := token + [sep] + rest;
    assert s[0] == token[0] && s[0] in token;
    TakenUpTo(token, sep, rest);
    assert s[|token| + 1..] == rest;
  }

  // ----- numbers -----

  predicate IsDigit(c: Byte) {
    DIGIT0 <= c <= DIGIT0 + 9
  }

  predicate IsBlank(c: Byte) {
    c == SPACE || 9 <= c <= 13
  }

  /** The value of the leading digits, after `value`. */
  function Digits(s: seq<Byte>, value: nat): nat
    decreases |s|
  {
    if s == [] || !IsDigit(s[0]) then value else Digits(s[1..], value * 10 + (s[0] - DIGIT0))
  }

  function Atoi(s: seq<Byte>): int
    decreases |s|
  {
    if s == [] then 0
    else if IsBlank(s[0]) then Atoi(s[1..])
    else if s[0] == HYPHEN then 0 - Digits(s[1..], 0)
    else if s[0] == PLUS then Digits(s[1..], 0)
    else Digits(s, 0)
  }

  function DecimalNat(n: nat): (r: seq<Byte>)
    ensures r != [] && forall i :: 0 <= i < |r| ==> IsDigit(r[i])
  {
    if n < 10 then [DIGIT0 + n] else DecimalNat(n / 10) + [DIGIT0 + n % 10]
  }

  function Decimal(n: int): (r: seq<Byte>)
    ensures r != [] && forall i :: 0 <= i < |r| ==> IsDigit(r[i]) || r[i] == HYPHEN
  {
    if n < 0 then [HYPHEN] + DecimalNat(-n) else DecimalNat(n)
  }

  lemma {:induction false} DigitsSnoc(s: seq<Byte>, c: Byte, value: nat)
    requires IsDigit(c) && forall i :: 0 <= i < |s| ==> IsDigit(s[i])
    ensures Digits(s + [c], value) == Digits(s, value) * 10 + (c - DIGIT0)
    decreases |s|
  {
    if s == [] {
      assert (s + [c])[1..] == [];
    } else {
      assert (s + [c])[0] == s[0] && (s + [c])[1..] == s[1..] + [c];
      DigitsSnoc(s[1..], c, value * 10 + (s[0] - DIGIT0));
    }
  }

  lemma {:induction false} DigitsOfDecimal(n: nat)
    ensures Digits(DecimalNat(n), 0) == n
  {
    if n < 10 {
      assert [DIGIT0 + n][1..] == [];
    } else {
      DigitsOfDecimal(n / 10);
      DigitsSnoc(DecimalNat(n / 10), DIGIT0 + n % 10, 0);
    }
  }

  lemma AtoiOfDecimal(n: int)
    ensures Atoi(Decimal(n)) == n
  {
    if n < 0 {
      DigitsOfDecimal(-n);
      assert Decimal(n)[1..] == DecimalNat(-n);
    } else {
      DigitsOfDecimal(n);
    }
  }

  lemma {:induction false} DigitsStop(s: seq<Byte>, rest: seq<Byte>, value: nat)
    requires (forall i :: 0 <= i < |s| ==> IsDigit(s[i])) && (rest == [] || !IsDigit(rest[0]))
    ensures Digits(s + rest, value) == Digits(s, value)
    decreases |s|
  {
    if s == [] {
      assert s + rest == rest;
    } else {
      assert (s + rest)[0] == s[0] && (s + rest)[1..] == s[1..] + rest;
      DigitsStop(s[1..], rest, value * 10 + (s[0] - DIGIT0));
    }
  }

  /** White space in front is passed over. */
  lemma AtoiBlank(blank: Byte, s: seq<Byte>)
    requires blank == 0x20 || 9 <= blank <= 13
    ensures Atoi([blank] + s) == Atoi(s)
  {
    assert ([blank] + s)[1..] == s;
  }

  /** Without a digit the number is zero. */
  lemma AtoiNothing(s: seq<Byte>)
    requires s == [] || s[0] > 0x39
    ensures Atoi(s) == 0
  {
  }

  /** A number may have a sign, and ends at the first byte that is no digit. */
  lemma AtoiReads(n: nat, rest: seq<Byte>)
    requires rest == [] || !(0x30 <= rest[0] <= 0x39)
    ensures Atoi(DecimalNat(n) + rest) == n
    ensures Atoi([0x2B] + (DecimalNat(n) + rest)) == n
    ensures Atoi([0x2D] + (DecimalNat(n) + rest)) == 0 - n
  {
    var t := DecimalNat(n) + rest;
    DigitsStop(DecimalNat(n), rest, 0);
    DigitsOfDecimal(n);
    AtoiSigned(t);
    assert t[0] == DecimalNat(n)[0];
  }

  lemma AtoiSigned(t: seq<Byte>)
    ensures Atoi([0x2B] + t) == Digits(t, 0) && Atoi([0x2D] + t) == 0 - Digits(t, 0)
    ensures t != [] && IsDigit(t[0]) ==> Atoi(t) == Digits(t, 0)
  {
    assert ([0x2B] + t)[1..] == t && ([0x2D] + t)[1..] == t;
  }

  // ----- the parser -----

  /** MountParseDevice: `major:minor`. */
  function ParseDevice(s: seq<Byte>): Option<(int, int)> {
    var before := Taken(s, DEVICE_SEP);
    if |before| == |s| then None else Some((Atoi(before), Atoi(s[|before| + 1..])))
  }

  /** The rest of the line behind the lone hyphen that ends the optional fields. */
  function SkipOptional(current: seq<Byte>, rest: seq<Byte>): (r: Option<seq<Byte>>)
    ensures r.Some? ==> |r.value| <= |rest|
    decreases |rest|
  {
    if current == [HYPHEN] then Some(rest)
    else
      var next := Strtok(rest, SPACE);
      if next == None then None else SkipOptional(next.value.token, next.value.rest)
  }

  /** What one turn of the loop makes of a field; None is a malformed line. */
  function Filled(e: Entry, field: nat, current: seq<Byte>): Option<Entry> {
    match field
    case 0 => Some(e.(id := Atoi(current)))
    case 1 => Some(e.(parentId := Atoi(current)))
    case 2 =>
      var d := ParseDevice(current);
      if d == None then None else Some(e.(major := d.value.0, minor := d.value.1))
    case 3 => Some(e.(root := current))
    case 4 => Some(e.(mountPoint := current))
    case 5 => Some(e.(mountOptions := current))
    case 7 => Some(e.(fileSystemType := current))
    case 8 => Some(e.(source := current))
    case 9 => Some(e.(superOptions := current))
    case _ => Some(e)
  }

  /** The fields from number `field` on. */
  function ParseFrom(e: Entry, field: nat, line: seq<Byte>): Option<Entry>
    decreases |line|
  {
    if field > MOUNT_FIELD_MAX then Some(e)
    else
      var cut := NextField(line, field);
      if cut == None then None
      else
        var e' := Filled(e, field, cut.value.token);
        var rest := if field == 6 then SkipOptional(cut.value.token, cut.value.rest) else Some(cut.value.rest);
        if e' == None || rest == None then None else ParseFrom(e'.value, field + 1, rest.value)
  }

  lemma ParseStep(e: Entry, field: nat, line: seq<Byte>, cut: Cut, e': Entry, rest: seq<Byte>)
    requires field <= MOUNT_FIELD_MAX && NextField(line, field) == Some(cut) && Filled(e, field, cut.token) == Some(e')
    requires (if field == 6 then SkipOptional(cut.token, cut.rest) else Some(cut.rest)) == Some(rest)
    ensures ParseFrom(e, field, line) == ParseFrom(e', field + 1, rest)
  {
  }

  function Parse(line: seq<Byte>): Option<Entry> {
    var e := ParseFrom(BLANK_ENTRY, 0, line);
    if e == None then None
    else Some(e.value.(root := Unescaped(e.value.root), source := Unescaped(e.value.source),
                       mountPoint := Unescaped(e.value.mountPoint)))
  }

  /** Lines 250-253. */
  method FindOptionalEnd(first: seq<Byte>, line: seq<Byte>) returns (rest: Option<seq<Byte>>)
    ensures rest == SkipOptional(first, line)
  {
    var current, behind := first, line;
    while current != [HYPHEN]
      invariant SkipOptional(current, behind) == SkipOptional(first, line)
      decreases |behind|
    {
      var next := Strtok(behind, SPACE);
      if next == None {
        return None;
      }
      current, behind := next.value.token, next.value.rest;
    }
    rest := Some(behind);
  }

  /** Lines 216-269: one turn of the loop; None is where it ends early. */
  method ReadField(entry: Entry, field: nat, line: seq<Byte>) returns (next: Option<(Entry, seq<Byte>)>)
    requires field <= MOUNT_FIELD_MAX
    ensures ParseFrom(entry, field, line) ==
              if next == None then None else ParseFrom(next.value.0, field + 1, next.value.1)
  {
    var cut := NextField(line, field);
    if cut == None {
      return None;
    }
    var filled := Filled(entry, field, cut.value.token);
    if filled == None {
      return None;
    }
    var behind := Some(cut.value.rest);
    if field == 6 {
      behind := FindOptionalEnd(cut.value.token, cut.value.rest);
      if behind == None {
        return None;
      }
    }
    ParseStep(entry, field, line, cut.value, filled.value, behind.value);
    next := Some((filled.value, behind.value));
  }

  method ParseMountInfoLine(line: seq<Byte>) returns (r: Option<Entry>)
    ensures r == Parse(line)
  {
    var entry, rest, field := BLANK_ENTRY, line, 0;
    while field <= MOUNT_FIELD_MAX
      invariant field <= MOUNT_FIELD_MAX + 1
      invariant ParseFrom(entry, field, rest) == ParseFrom(BLANK_ENTRY, 0, line)
    {
      var next := ReadField(entry, field, rest);
      if next == None {
        return None;
      }
      entry, rest := next.value.0, next.value.1;
      field := field + 1;
    }
    r := Some(entry.(root := Unescaped(entry.root), source := Unescaped(entry.source),
                     mountPoint := Unescaped(entry.mountPoint)));
  }

  // ----- the printer -----

  /** A backslash and three octal digits. */
  function OctalEscape(c: Byte): (r: seq<Byte>)
    ensures |r| == 4
  {
    [ESCAPE_CHAR, DIGIT0 + c / 64, DIGIT0 + c / 8 % 8, DIGIT0 + c % 8]
  }

  /** A field with the bytes of `special` written as octal escapes. */
  function Escaped(s: seq<Byte>, special: set<Byte>): seq<Byte> {
    if s == [] then []
    else (if s[0] in special then OctalEscape(s[0]) else [s[0]]) + Escaped(s[1..], special)
  }

  function Optional(fields: seq<seq<Byte>>): seq<Byte> {
    if fields == [] then [] else fields[0] + [SPACE] + Optional(fields[1..])
  }

  /** The end of a line: file system type, source and super block options. */
  function PrintTail(e: Entry, special: set<Byte>): seq<Byte> {
    e.fileSystemType + [SPACE] + (Escaped(e.source, special) + [SPACE] + (e.superOptions + [NEWLINE] + []))
  }

  /** From the optional fields on. */
  function PrintOptional(e: Entry, optional: seq<seq<Byte>>, special: set<Byte>): seq<Byte> {
    Optional(optional) + ([HYPHEN] + [SPACE] + PrintTail(e, special))
  }

  function PrintPaths(e: Entry, optional: seq<seq<Byte>>, special: set<Byte>): seq<Byte> {
    Escaped(e.root, special) + [SPACE]
    + (Escaped(e.mountPoint, special) + [SPACE] + (e.mountOptions + [SPACE] + PrintOptional(e, optional, special)))
  }

  /** A line of /proc/self/mountinfo in the form of proc(5). */
  function Print(e: Entry, optional: seq<seq<Byte>>, special: set<Byte>): seq<Byte> {
    Decimal(e.id) + [SPACE]
    + (Decimal(e.parentId) + [SPACE]
       + (Decimal(e.major) + [DEVICE_SEP] + Decimal(e.minor) + [SPACE] + PrintPaths(e, optional, special)))
  }

  // ----- parsing what was printed -----

  lemma OctalRoundTrip(c: Byte)
    ensures var o := OctalEscape(c);
            IsOctal(o[1]) && IsOctal(o[2]) && IsOctal(o[3]) && OctalValue(o[1], o[2], o[3]) == c
  {
    var x, y, z := c / 64, c / 8 % 8, c % 8;
    assert c == (c / 8) * 8 + z && c / 8 == (c / 64) * 8 + y;
    assert ShiftedIn(0, DIGIT0 + x) == x && ShiftedIn(x, DIGIT0 + y) == x * 8 + y;
  }

  /** The in-place unescape undoes the escape of any set of bytes that has the backslash in it. */
  lemma {:induction false} UnescapedOfEscaped(s: seq<Byte>, special: set<Byte>)
    requires ESCAPE_CHAR in special
    ensures Unescaped(Escaped(s, special)) == s
  {
    if s != [] {
      var c, rest := s[0], Escaped(s[1..], special);
      UnescapedOfEscaped(s[1..], special);
      var e := Escaped(s, special);
      if c in special {
        OctalRoundTrip(c);
        assert e == OctalEscape(c) + rest && e[4..] == rest;
      } else {
        assert e[1..] == rest && !StartsEscape(e);
      }
    }
  }

  lemma {:induction false} EscapedHasNo(s: seq<Byte>, special: set<Byte>, c: Byte)
    requires c in special && !IsOctal(c) && c != ESCAPE_CHAR
    ensures c !in Escaped(s, special)
  {
    if s != [] {
      EscapedHasNo(s[1..], special, c);
      OctalRoundTrip(s[0]);
    }
  }

  lemma {:induction false} SkipOptionalPrinted(first: seq<Byte>, fields: seq<seq<Byte>>, tail: seq<Byte>)
    requires forall i :: 0 <= i < |fields| ==> fields[i] != [] && SPACE !in fields[i] && fields[i] != [HYPHEN]
    requires first != [HYPHEN]
    ensures SkipOptional(first, Optional(fields) + ([HYPHEN] + [SPACE] + tail)) == Some(tail)
    decreases |fields|
  {
    var end := [HYPHEN] + [SPACE] + tail;
    if fields == [] {
      assert Optional(fields) + end == end;
      StrtokInFront([HYPHEN], SPACE, tail);
    } else {
      var rest := Optional(fields[1..]) + end;
      OptionalInFront(fields, end);
      StrtokInFront(fields[0], SPACE, rest);
      SkipOptionalPrinted(fields[0], fields[1..], tail);
    }
  }

  /** What proc(5) promises of a line; of the source, a mount's free text, it promises nothing. */
  ghost predicate Printable(e: Entry, optional: seq<seq<Byte>>) {
    && e.root != [] && e.mountPoint != []
    && e.mountOptions != [] && SPACE !in e.mountOptions
    && e.fileSystemType != [] && SPACE !in e.fileSystemType
    && e.superOptions != [] && NEWLINE !in e.superOptions
    && forall i :: 0 <= i < |optional| ==> optional[i] != [] && SPACE !in optional[i] && optional[i] != [HYPHEN]
  }

  lemma EscapedField(s: seq<Byte>, special: set<Byte>)
    requires s != [] && SPACE in special
    ensures Escaped(s, special) != [] && SPACE !in Escaped(s, special)
  {
    EscapedHasNo(s, special, SPACE);
  }

  /** One printed field in front of the rest of the line. */
  lemma ParseField(p: Entry, field: nat, token: seq<Byte>, rest: seq<Byte>)
    requires field < MOUNT_FIELD_MAX && field != 6 && token != [] && SPACE !in token
    requires Filled(p, field, token).Some?
    ensures ParseFrom(p, field, token + [SPACE] + rest) == ParseFrom(Filled(p, field, token).value, field + 1, rest)
  {
    StrtokInFront(token, SPACE, rest);
    ParseStep(p, field, token + [SPACE] + rest, Cut(token, rest), Filled(p, field, token).value, rest);
  }

  lemma ParseLast(p: Entry, field: nat, token: seq<Byte>)
    requires field == MOUNT_FIELD_MAX && token != [] && NEWLINE !in token
    ensures ParseFrom(p, field, token + [NEWLINE] + []) == Some(p.(superOptions := token))
  {
    StrtokInFront(token, NEWLINE, []);
    ParseStep(p, field, token + [NEWLINE] + [], Cut(token, []), p.(superOptions := token), []);
  }

  lemma ParseSource(p: Entry, field: nat, source: seq<Byte>, superOptions: seq<Byte>, last: seq<Byte>)
    requires field == 8 && source != [] && SPACE !in source && superOptions != [] && NEWLINE !in superOptions
    requires last == superOptions + [NEWLINE] + []
    ensures ParseFrom(p, field, source + [SPACE] + last) == Some(p.(source := source, superOptions := superOptions))
  {
    assert ParseFrom(p, field, source + [SPACE] + last) == ParseFrom(p.(source := source), field + 1, last) by {
      ParseField(p, field, source, last);
    }
    ParseLast(p.(source := source), field + 1, superOptions);
  }

  lemma ParseLastThree(p: Entry, field: nat, fileSystemType: seq<Byte>, source: seq<Byte>, superOptions: seq<Byte>)
    requires field == 7 && fileSystemType != [] && SPACE !in fileSystemType
    requires source != [] && SPACE !in source && superOptions != [] && NEWLINE !in superOptions
    ensures ParseFrom(p, field, fileSystemType + [SPACE] + (source + [SPACE] + (superOptions + [NEWLINE] + []))) ==
              Some(p.(fileSystemType := fileSystemType, source := source, superOptions := superOptions))
  {
    var last := superOptions + [NEWLINE] + [];
    var rest := source + [SPACE] + last;
    assert ParseFrom(p, field, fileSystemType + [SPACE] + rest) ==
           ParseFrom(p.(fileSystemType := fileSystemType), field + 1, rest) by {
      ParseField(p, field, fileSystemType, rest);
    }
    ParseSource(p.(fileSystemType := fileSystemType), field + 1, source, superOptions, last);
  }

  lemma ParseTail(p: Entry, e: Entry, special: set<Byte>)
    requires Printable(e, []) && e.source != [] && SPACE in special
    ensures ParseFrom(p, 7, PrintTail(e, special)) ==
              Some(p.(fileSystemType := e.fileSystemType, source := Escaped(e.source, special),
                      superOptions := e.superOptions))
  {
    EscapedField(e.source, special);
    ParseLastThree(p, 7, e.fileSystemType, Escaped(e.source, special), e.superOptions);
  }

  lemma ParseOptional(p: Entry, e: Entry, optional: seq<seq<Byte>>, special: set<Byte>)
    requires Printable(e, optional) && SPACE in special
    ensures ParseFrom(p, 6, PrintOptional(e, optional, special)) == ParseFrom(p, 7, PrintTail(e, special))
  {
    OptionalFields(p, 6, optional, PrintTail(e, special));
  }

  lemma OptionalInFront(fields: seq<seq<Byte>>, end: seq<Byte>)
    requires fields != []
    ensures Optional(fields) + end == fields[0] + [SPACE] + (Optional(fields[1..]) + end)
  {
    Associate(fields[0] + [SPACE], Optional(fields[1..]), end);
  }

  lemma OptionalStep(p: Entry, field: nat, first: seq<Byte>, rest: seq<Byte>, tail: seq<Byte>)
    requires field == 6 && first != [] && SPACE !in first && SkipOptional(first, rest) == Some(tail)
    ensures ParseFrom(p, field, first + [SPACE] + rest) == ParseFrom(p, field + 1, tail)
  {
    StrtokInFront(first, SPACE, rest);
    ParseStep(p, field, first + [SPACE] + rest, Cut(first, rest), p, tail);
  }

  lemma OptionalFields(p: Entry, field: nat, optional: seq<seq<Byte>>, tail: seq<Byte>)
    requires field == 6
    requires forall i :: 0 <= i < |optional| ==> optional[i] != [] && SPACE !in optional[i] && optional[i] != [HYPHEN]
    ensures ParseFrom(p, field, Optional(optional) + ([HYPHEN] + [SPACE] + tail)) == ParseFrom(p, field + 1, tail)
  {
    var end := [HYPHEN] + [SPACE] + tail;
    if optional == [] {
      assert Optional(optional) + end == end;
      OptionalStep(p, field, [HYPHEN], tail, tail);
    } else {
      OptionalInFront(optional, end);
      SkipOptionalPrinted(optional[0], optional[1..], tail);
      OptionalStep(p, field, optional[0], Optional(optional[1..]) + end, tail);
    }
  }

  lemma ParsePaths(p: Entry, e: Entry, optional: seq<seq<Byte>>, special: set<Byte>)
    requires Printable(e, optional) && SPACE in special
    ensures ParseFrom(p, 3, PrintPaths(e, optional, special)) ==
              ParseFrom(p.(root := Escaped(e.root, special), mountPoint := Escaped(e.mountPoint, special),
                           mountOptions := e.mountOptions), 6, PrintOptional(e, optional, special))
  {
    var root, point := Escaped(e.root, special), Escaped(e.mountPoint, special);
    var opt := PrintOptional(e, optional, special);
    EscapedField(e.root, special);
    EscapedField(e.mountPoint, special);
    var p3 := p.(root := root);
    var r5 := e.mountOptions + [SPACE] + opt;
    ParseField(p, 3, root, point + [SPACE] + r5);
    ParseField(p3, 4, point, r5);
    ParseField(p3.(mountPoint := point), 5, e.mountOptions, opt);
  }

  lemma DeviceRoundTrip(major: int, minor: int)
    ensures var d := Decimal(major) + [DEVICE_SEP] + Decimal(minor);
            d != [] && SPACE !in d && ParseDevice(d) == Some((major, minor))
  {
    var d := Decimal(major) + [DEVICE_SEP] + Decimal(minor);
    TakenUpTo(Decimal(major), DEVICE_SEP, Decimal(minor));
    assert d[|Decimal(major)| + 1..] == Decimal(minor);
    AtoiOfDecimal(major);
    AtoiOfDecimal(minor);
  }

  lemma ParseId(p: Entry, field: nat, n: int, rest: seq<Byte>)
    requires field <= 1
    ensures ParseFrom(p, field, Decimal(n) + [SPACE] + rest) ==
              ParseFrom(if field == 0 then p.(id := n) else p.(parentId := n), field + 1, rest)
  {
    AtoiOfDecimal(n);
    ParseField(p, field, Decimal(n), rest);
  }

  lemma ParseIds(id: int, parentId: int, rest: seq<Byte>)
    ensures ParseFrom(BLANK_ENTRY, 0, Decimal(id) + [SPACE] + (Decimal(parentId) + [SPACE] + rest))
              == ParseFrom(BLANK_ENTRY.(id := id, parentId := parentId), 2, rest)
  {
    ParseId(BLANK_ENTRY, 0, id, Decimal(parentId) + [SPACE] + rest);
    ParseId(BLANK_ENTRY.(id := id), 1, parentId, rest);
  }

  function Numbers(e: Entry): Entry {
    BLANK_ENTRY.(id := e.id, parentId := e.parentId, major := e.major, minor := e.minor)
  }

  lemma ParseNumbers(e: Entry, rest: seq<Byte>)
    ensures var device := Decimal(e.major) + [DEVICE_SEP] + Decimal(e.minor);
            var line := Decimal(e.id) + [SPACE] + (Decimal(e.parentId) + [SPACE] + (device + [SPACE] + rest));
            ParseFrom(BLANK_ENTRY, 0, line) == ParseFrom(Numbers(e), 3, rest)
  {
    var device := Decimal(e.major) + [DEVICE_SEP] + Decimal(e.minor);
    var r2 := device + [SPACE] + rest;
    DeviceRoundTrip(e.major, e.minor);
    ParseIds(e.id, e.parentId, r2);
    ParseField(BLANK_ENTRY.(id := e.id, parentId := e.parentId), 2, device, rest);
  }

  /** The entry as far as it is filled before its file system type is read. */
  function Front(e: Entry, special: set<Byte>): Entry {
    Numbers(e).(root := Escaped(e.root, special), mountPoint := Escaped(e.mountPoint, special),
                mountOptions := e.mountOptions)
  }

  lemma ParseFront(e: Entry, optional: seq<seq<Byte>>, special: set<Byte>)
    requires Printable(e, optional) && SPACE in special
    ensures ParseFrom(BLANK_ENTRY, 0, Print(e, optional, special)) ==
              ParseFrom(Front(e, special), 7, PrintTail(e, special))
  {
    ParseNumbers(e, PrintPaths(e, optional, special));
    ParsePaths(Numbers(e), e, optional, special);
    ParseOptional(Front(e, special), e, optional, special);
  }

  /** For every entry with a source, every list of optional fields and every set of escaped bytes that
      has the space and the backslash in it: parsing the printed line recovers every field. */
  lemma ParseOfPrint(e: Entry, optional: seq<seq<Byte>>, special: set<Byte>)
    requires Printable(e, optional) && e.source != [] && SPACE in special && ESCAPE_CHAR in special
    ensures Parse(Print(e, optional, special)) == Some(e)
  {
    ParseFront(e, optional, special);
    ParseTail(Front(e, special), e, special);
    UnescapedOfEscaped(e.root, special);
    UnescapedOfEscaped(e.mountPoint, special);
    UnescapedOfEscaped(e.source, special);
  }

  lemma OneDigit(n: nat)
    requires n < 10
    ensures Decimal(n) == [48 + n]
  {
    assert DecimalNat(n) == [DIGIT0 + n];
  }

  lemma {:induction false} NothingEscaped(s: seq<Byte>, special: set<Byte>)
    requires forall i :: 0 <= i < |s| ==> s[i] !in special
    ensures Escaped(s, special) == s
  {
    if s != [] {
      NothingEscaped(s[1..], special);
      assert s == [s[0]] + s[1..];
    }
  }

  const EXAMPLE := Entry(1, 2, 3, 4, [47], [47, 109], [114, 119], [57, 112], [120], [114, 119])

  lemma ExampleTail(special: set<Byte>)
    requires special == {32, 92}
    ensures PrintOptional(EXAMPLE, [], special) == [45, 32, 57, 112, 32, 120, 32, 114, 119, 10]
  {
    NothingEscaped(EXAMPLE.source, special);
    assert PrintTail(EXAMPLE, special) == [57, 112, 32, 120, 32, 114, 119, 10];
    assert Optional([]) == [];
  }

  lemma ExamplePaths(special: set<Byte>)
    requires special == {32, 92}
    ensures PrintPaths(EXAMPLE, [], special) ==
              [47, 32, 47, 109, 32, 114, 119, 32] + [45, 32, 57, 112, 32, 120, 32, 114, 119, 10]
  {
    NothingEscaped(EXAMPLE.root, special);
    NothingEscaped(EXAMPLE.mountPoint, special);
    ExampleTail(special);
  }

  lemma ExampleNumbers(tail: seq<Byte>)
    ensures Decimal(1) + [SPACE] + (Decimal(2) + [SPACE] + (Decimal(3) + [DEVICE_SEP] + Decimal(4) + [SPACE] + tail))
              == [49, 32, 50, 32, 51, 58, 52, 32] + tail
  {
    OneDigit(1);
    OneDigit(2);
    OneDigit(3);
    OneDigit(4);
  }

  lemma ExampleText(special: set<Byte>)
    requires special == {32, 92}
    ensures Print(EXAMPLE, [], special) ==
              [49, 32, 50, 32, 51, 58, 52, 32]
              + ([47, 32, 47, 109, 32, 114, 119, 32] + [45, 32, 57, 112, 32, 120, 32, 114, 119, 10])
  {
    ExamplePaths(special);
    ExampleNumbers(PrintPaths(EXAMPLE, [], special));
  }

  /** The line `1 2 3:4 / /m rw - 9p x rw` is mount 1 on 2, device 3:4, a 9p of source x mounted on /m. */
  lemma ExampleLine()
    ensures Parse([49, 32, 50, 32, 51, 58, 52, 32]
                  + ([47, 32, 47, 109, 32, 114, 119, 32] + [45, 32, 57, 112, 32, 120, 32, 114, 119, 10]))
              == Some(Entry(1, 2, 3, 4, [47], [47, 109], [114, 119], [57, 112], [120], [114, 119]))
  {
    ExampleText({32, 92});
    ParseOfPrint(EXAMPLE, [], {32, 92});
  }

  // ----- a mount without a source -----

  /** The super block options read as a source: their first word, ... */
  function FirstWord(superOptions: seq<Byte>): seq<Byte> {
    Taken(Skipped(superOptions, SPACE), SPACE)
  }

  /** ... and what follows the space behind it. */
  function BehindFirstWord(superOptions: seq<Byte>): seq<Byte> {
    var t, n := Skipped(superOptions, SPACE), |FirstWord(superOptions)|;
    if n < |t| then t[n + 1..] else []
  }

  /** A non-space, later a space, and something behind that. */
  ghost predicate HasSecondWord(superOptions: seq<Byte>) {
    exists i, j :: 0 <= i < j < |superOptions| - 1 && superOptions[i] != SPACE && superOptions[j] == SPACE
  }

  lemma {:induction false} SkippedFront(s: seq<Byte>, c: Byte)
    requires c != SPACE
    ensures Skipped(s + [c], SPACE) == Skipped(s, SPACE) + [c]
  {
    if s != [] && s[0] == SPACE {
      SkippedFront(s[1..], c);
      assert (s + [c])[1..] == s[1..] + [c];
    } else {
      assert (s + [c])[0] != SPACE;
    }
  }

  lemma {:induction false} TakenIs(t: seq<Byte>, c: Byte)
    requires c != SPACE
    ensures var n := |Taken(t, SPACE)|;
            && SPACE !in Taken(t, SPACE) && (n < |t| ==> t[n] == SPACE)
            && Taken(t + [c], SPACE) == if n < |t| then Taken(t, SPACE) else t + [c]
  {
    var u := t + [c];
    if t != [] && t[0] != SPACE {
      TakenIs(t[1..], c);
      assert u[1..] == t[1..] + [c] && t == [t[0]] + t[1..];
    } else if t == [] {
      assert u == [c] && u[1..] == [] && Taken(u[1..], SPACE) == [];
    }
  }

  /** What the last two fields become: nothing unless there is a second word. */
  lemma EmptySourceTail(p: Entry, field: nat, fileSystemType: seq<Byte>, superOptions: seq<Byte>)
    requires field == 7 && fileSystemType != [] && SPACE !in fileSystemType
    requires superOptions != [] && NEWLINE !in superOptions
    ensures ParseFrom(p, field, fileSystemType + [SPACE] + ([] + [SPACE] + (superOptions + [NEWLINE] + []))) ==
              if BehindFirstWord(superOptions) == [] then None
              else Some(p.(fileSystemType := fileSystemType, source := FirstWord(superOptions),
                           superOptions := BehindFirstWord(superOptions)))
  {
    var rest := [] + [SPACE] + (superOptions + [NEWLINE] + []);
    assert ParseFrom(p, field, fileSystemType + [SPACE] + rest) ==
           ParseFrom(p.(fileSystemType := fileSystemType), field + 1, rest) by {
      ParseField(p, field, fileSystemType, rest);
    }
    EmptySourceLast(p.(fileSystemType := fileSystemType), field + 1, superOptions, rest);
  }

  lemma FirstCut(t: seq<Byte>, word: seq<Byte>, u: seq<Byte>)
    requires u == t + [NEWLINE] && |word| <= |t|
    ensures |word| < |t| ==> |word| < |u| && u[|word| + 1..] == t[|word| + 1..] + [NEWLINE]
  {
  }

  /** Where strtok cuts the text behind the file system type. */
  lemma EmptySourceCut(superOptions: seq<Byte>, rest: seq<Byte>)
    requires rest == [] + [SPACE] + (superOptions + [NEWLINE] + [])
    ensures var t, word := Skipped(superOptions, SPACE), FirstWord(superOptions);
            Strtok(rest, SPACE) ==
              Some(if |word| < |t| then Cut(word, BehindFirstWord(superOptions) + [NEWLINE])
                   else Cut(t + [NEWLINE], []))
  {
    var t, word := Skipped(superOptions, SPACE), FirstWord(superOptions);
    assert rest[1..] == superOptions + [NEWLINE];
    SkippedFront(superOptions, NEWLINE);
    assert Skipped(rest, SPACE) == t + [NEWLINE];
    TakenIs(t, NEWLINE);
    FirstCut(t, word, t + [NEWLINE]);
  }

  lemma EmptySourceLast(p: Entry, field: nat, superOptions: seq<Byte>, rest: seq<Byte>)
    requires field == 8 && superOptions != [] && NEWLINE !in superOptions
    requires rest == [] + [SPACE] + (superOptions + [NEWLINE] + [])
    ensures ParseFrom(p, field, rest) ==
              if BehindFirstWord(superOptions) == [] then None
              else Some(p.(source := FirstWord(superOptions), superOptions := BehindFirstWord(superOptions)))
  {
    var t := Skipped(superOptions, SPACE);
    var word, behind := FirstWord(superOptions), BehindFirstWord(superOptions);
    EmptySourceCut(superOptions, rest);
    if |word| < |t| {
      ParseStep(p, field, rest, Cut(word, behind + [NEWLINE]), p.(source := word), behind + [NEWLINE]);
      assert NEWLINE !in behind by { SkippedPart(superOptions); }
      LastOrNothing(p.(source := word), field + 1, behind);
    } else {
      ParseStep(p, field, rest, Cut(t + [NEWLINE], []), p.(source := t + [NEWLINE]), []);
      assert Strtok([], NEWLINE) == None;
    }
  }

  lemma LastOrNothing(p: Entry, field: nat, token: seq<Byte>)
    requires field == MOUNT_FIELD_MAX && NEWLINE !in token
    ensures ParseFrom(p, field, token + [NEWLINE]) == if token == [] then None else Some(p.(superOptions := token))
  {
    if token == [] {
      assert token + [NEWLINE] == [NEWLINE] && [NEWLINE][1..] == [];
      assert Skipped([NEWLINE], NEWLINE) == [];
    } else {
      assert token + [NEWLINE] == token + [NEWLINE] + [];
      ParseLast(p, field, token);
    }
  }

  lemma {:induction false} SkippedPart(s: seq<Byte>)
    ensures var t := Skipped(s, SPACE);
            && |t| <= |s| && t == s[|s| - |t|..] && (t != [] ==> t[0] != SPACE)
            && forall k :: 0 <= k < |s| - |t| ==> s[k] == SPACE
  {
    if s != [] && s[0] == SPACE {
      SkippedPart(s[1..]);
    }
  }

  lemma SecondWordIff(superOptions: seq<Byte>)
    ensures HasSecondWord(superOptions) <==> BehindFirstWord(superOptions) != []
  {
    var t, word := Skipped(superOptions, SPACE), FirstWord(superOptions);
    var d := |superOptions| - |t|;
    SkippedPart(superOptions);
    TakenIs(t, NEWLINE);
    if BehindFirstWord(superOptions) != [] {
      assert superOptions[d] != SPACE && superOptions[d + |word|] == SPACE;
    }
    if HasSecondWord(superOptions) {
      var i, j :| 0 <= i < j < |superOptions| - 1 && superOptions[i] != SPACE && superOptions[j] == SPACE;
      assert d <= i && t[j - d] == SPACE;
      if |word| > j - d {
        assert word[j - d] == t[j - d];
      }
    }
  }

  /** A mount without a source cannot be told from its line: strtok runs the two separators together.
      The line is dropped as malformed unless the super block options have a second word; then it is
      taken with their first word for the source. */
  lemma EmptySourceReads(e: Entry, optional: seq<seq<Byte>>, special: set<Byte>)
    requires Printable(e, optional) && e.source == [] && SPACE in special && ESCAPE_CHAR in special
    ensures Parse(Print(e, optional, special)) ==
              if HasSecondWord(e.superOptions)
              then Some(e.(source := Unescaped(FirstWord(e.superOptions)),
                           superOptions := BehindFirstWord(e.superOptions)))
              else None
  {
    ParseFront(e, optional, special);
    assert Escaped(e.source, special) == [];
    EmptySourceTail(Front(e, special), 7, e.fileSystemType, e.superOptions);
    SecondWordIff(e.superOptions);
    UnescapedOfEscaped(e.root, special);
    UnescapedOfEscaped(e.mountPoint, special);
  }

  /** For every printable entry: parsing its line recovers it if and only if it has a source. */
  lemma ParseOfPrintIff(e: Entry, optional: seq<seq<Byte>>, special: set<Byte>)
    requires Printable(e, optional) && SPACE in special && ESCAPE_CHAR in special
    ensures Parse(Print(e, optional, special)) == Some(e) <==> e.source != []
  {
    if e.source != [] {
      ParseOfPrint(e, optional, special);
    } else {
      EmptySourceReads(e, optional, special);
      SecondWordIff(e.superOptions);
      SkippedPart(e.superOptions);
      assert HasSecondWord(e.superOptions) ==> Unescaped(FirstWord(e.superOptions)) != [];
    }
  }

  lemma TwoWords(words: seq<Byte>)
    requires words == [114, 119, SPACE, 120]
    ensures HasSecondWord(words) && FirstWord(words) == [114, 119] && BehindFirstWord(words) == [120]
    ensures Unescaped([114, 119]) == [114, 119]
  {
    assert words[0] != SPACE && words[2] == SPACE;
    assert Taken(words, SPACE) == [114, 119] by {
      TakenUpTo([114, 119], SPACE, [120]);
      assert [114, 119] + [SPACE] + [120] == words;
    }
    assert words[3..] == [120];
    assert [114, 119][1..] == [119] && [119][1..] == [];
    assert Unescaped([119]) == [119];
  }

  /** A tmpfs without a source: with options `rw` its line is dropped, with `rw x` it is taken for a
      mount of `rw` with options `x`. */
  lemma EmptySourceExamples(e: Entry, special: set<Byte>)
    requires SPACE in special && ESCAPE_CHAR in special
    requires e == Entry(21, 1, 0, 35, [47], [47, 109], [114, 119], [116, 109, 112, 102, 115], [], [114, 119])
    ensures Parse(Print(e, [], special)) == None
    ensures var x := e.(superOptions := [114, 119, SPACE, 120]);
            Parse(Print(x, [], special)) == Some(x.(source := [114, 119], superOptions := [120]))
  {
    EmptySourceReads(e, [], special);
    var words: seq<Byte> := [114, 119, SPACE, 120];
    EmptySourceReads(e.(superOptions := words), [], special);
    TwoWords(words);
  }
}
