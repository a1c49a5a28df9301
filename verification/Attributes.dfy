/**
  The attribute codec of the identity client. LLDAP keeps a list of strings per attribute
  name; the client works with a flat dictionary of four known attributes. Both
  conversions run over entries in an order nobody fixes, so they are specified on the
  unordered store.
*/
module Attributes {
  import opened Options
  import opened Seqs

  const EXPIRES := "fastak_expires"
  const REVOKED := "fastak_certs_revoked"
  const ACTIVE := "is_active"
  const USER_TYPE := "fastak_user_type"

  predicate Known(name: string) {
    name == EXPIRES || name == REVOKED || name == ACTIVE || name == USER_TYPE
  }

  /** A dictionary value as Python holds it; Clear is None. */
  datatype Value = Clear | Flag(b: bool) | Number(n: int) | Word(s: string)

  type Attrs = map<string, Value>

  /** What LLDAP stores for one user. */
  type Raw = map<string, seq<string>>

  datatype Entry = Entry(name: string, value: seq<string>)

  // ---------------------------------------------------------------- str(int) and int(str)

  function NatText(n: nat): string {
    var last := ['0' + (n % 10) as char];
    if n < 10 then last else NatText(n / 10) + last
  }

  function IntText(n: int): string {
    if n < 0 then "-" + NatText(-n) else NatText(n)
  }

  /** The ASCII characters int() strips: tab to carriage return, the four separators, space. */
  predicate IsSpace(c: char) {
    '\t' <= c <= '\r' || '\U{1c}' <= c <= '\U{1f}' || c == ' '
  }

  predicate IsDigit(c: char) {
    '0' <= c <= '9'
  }

  function StripLeft(s: string): string {
    if s != "" && IsSpace(s[0]) then StripLeft(s[1..]) else s
  }

  function StripRight(s: string): string {
    if s != "" && IsSpace(Last(s)) then StripRight(Init(s)) else s
  }

  /** Digits, with single underscores allowed between them. */
  predicate IsNumeral(s: string) {
    && s != "" && IsDigit(s[0]) && IsDigit(Last(s))
    && forall i :: 0 <= i < |s| - 1 ==> (IsDigit(s[i]) || s[i] == '_') && (s[i] == '_' ==> s[i + 1] != '_')
  }

  function NumeralValue(s: string): int {
    if s == "" then 0
    else if IsDigit(Last(s)) then NumeralValue(Init(s)) * 10 + (Last(s) - '0') as int
    else NumeralValue(Init(s))
  }

  /** int(text): surrounding whitespace, a sign, a numeral. */
  function ParseInt(text: string): Option<int> {
    var s := StripRight(StripLeft(text));
    var body := if s != "" && s[0] in "+-" then s[1..] else s;
    if !IsNumeral(body) then None
    else if s[0] == '-' then Some(-NumeralValue(body)) else Some(NumeralValue(body))
  }

  lemma {:induction false} NatTextIsNumeral(n: nat)
    ensures AllDigits(NatText(n)) && NumeralValue(NatText(n)) == n
  {
    var t := NatText(n);
    if n >= 10 {
      NatTextIsNumeral(n / 10);
      assert Init(t) == NatText(n / 10);
    } else {
      assert Init(t) == "";
    }
  }

  lemma {:induction false} NothingToStrip(s: string)
    requires s != "" && !IsSpace(s[0]) && !IsSpace(Last(s))
    ensures StripRight(StripLeft(s)) == s
  {
  }

  predicate AllDigits(s: string) {
    s != "" && forall i :: 0 <= i < |s| ==> IsDigit(s[i])
  }

  lemma {:induction false} DigitsAreNumeral(body: string)
    requires AllDigits(body)
    ensures IsNumeral(body) && !IsSpace(body[0]) && !IsSpace(Last(body)) && body[0] !in "+-"
  {
  }

  lemma {:induction false} PlainParses(body: string)
    requires AllDigits(body)
    ensures ParseInt(body) == Some(NumeralValue(body))
  {
    DigitsAreNumeral(body);
    NothingToStrip(body);
  }

  lemma {:induction false} NegativeParses(body: string)
    requires AllDigits(body)
    ensures ParseInt("-" + body) == Some(-NumeralValue(body))
  {
    var s := "-" + body;
    DigitsAreNumeral(body);
    assert s[0] == '-' && Last(s) == Last(body) && s[1..] == body;
    NothingToStrip(s);
  }

  lemma {:induction false} DecimalRoundTrip(n: int)
    ensures ParseInt(IntText(n)) == Some(n)
  {
    if n < 0 {
      NatTextIsNumeral(-n);
      NegativeParses(NatText(-n));
    } else {
      NatTextIsNumeral(n);
      PlainParses(NatText(n));
    }
  }

  // ---------------------------------------------------------------- one entry

  /** The strings written for a value; clearing writes none. */
  function Rendered(v: Value): seq<string> {
    match v
    case Clear => []
    case Flag(b) => [if b then "true" else "false"]
    case Number(n) => [IntText(n)]
    case Word(s) => [s]
  }

  /** What an entry contributes to the parsed dictionary, if anything. */
  function Decode(name: string, value: seq<string>): Option<Value> {
    if !Known(name) || value == [] then None
    else if name == EXPIRES then
      match ParseInt(value[0])
      case Some(n) => Some(Number(n))
      case None => None
    else if name == REVOKED then Some(Flag(Lower(value[0]) == "true"))
    else if name == ACTIVE then Some(Flag(Lower(value[0]) != "false"))
    else Some(Word(value[0]))
  }

  /** Values of the kinds the client writes under each known name. */
  predicate WellTyped(attrs: Attrs) {
    forall name :: name in attrs ==> Known(name) && HasKind(name, attrs[name])
  }

  predicate HasKind(name: string, v: Value) {
    || v == Clear
    || (if name == EXPIRES then v.Number? else if name == USER_TYPE then v.Word? else v.Flag?)
  }

  lemma {:induction false} EntryRoundTrip(name: string, v: Value)
    requires Known(name) && HasKind(name, v)
    ensures Decode(name, Rendered(v)) == if v == Clear then None else Some(v)
  {
    if v.Number? {
      DecimalRoundTrip(v.n);
    } else if v.Flag? {
      assert Lower("true") == "true" && Lower("false") == "false";
      assert Lower("false")[0] == 'f' && Lower("true")[0] == 't';
    }
  }

  lemma {:induction false} IntTexts()
    ensures IntText(-1700) == "-1700" && IntText(0) == "0"
  {
    NatTexts();
  }

  /** What int() takes: white space around, one sign, single underscores between digits. */
  lemma {:induction false} IntsTaken()
    ensures ParseInt(" +12\n") == Some(12) && ParseInt("1_0") == Some(10)
  {
    assert Init("1") == "" && Init("12") == "1" && Init("1_0") == "1_" && Init("1_") == "1";
    assert StripLeft(" +12\n") == StripLeft("+12\n") == "+12\n" && Init("+12\n") == "+12";
    assert StripRight("+12\n") == StripRight("+12") == "+12" && "+12"[1..] == "12";
  }

  lemma {:induction false} IntsRefused()
    ensures ParseInt("") == None && ParseInt("-") == None && ParseInt("_1") == None && ParseInt("soon") == None
    ensures ParseInt("1__0") == None && ParseInt("1 0") == None
  {
    assert "1__0"[1] == '_' && "1__0"[2] == '_';
    assert "1 0"[1] == ' ';
  }

  lemma {:induction false} NatTexts()
    ensures NatText(1700) == "1700" && NatText(0) == "0"
  {
    assert NatText(1700) == NatText(170) + "0" && NatText(170) == NatText(17) + "0" && NatText(17) == NatText(1) + "7";
  }

  /** The names and the strings other programs see in LLDAP. */
  lemma {:induction false} WireFormat()
    ensures [EXPIRES, REVOKED, ACTIVE, USER_TYPE]
              == ["fastak_expires", "fastak_certs_revoked", "is_active", "fastak_user_type"]
    ensures Rendered(Flag(true)) == ["true"] && Rendered(Flag(false)) == ["false"] && Rendered(Clear) == []
    ensures Rendered(Number(-1700)) == ["-1700"]
  {
    IntTexts();
  }

  lemma {:induction false} FlagsRead(rest: seq<string>)
    ensures Decode("fastak_certs_revoked", ["TRUE"] + rest) == Some(Flag(true))
    ensures Decode("fastak_certs_revoked", ["1"] + rest) == Some(Flag(false))
    ensures Decode("is_active", ["FALSE"] + rest) == Some(Flag(false))
    ensures Decode("is_active", ["0"] + rest) == Some(Flag(true))
  {
    LowerOfUpper();
  }

  lemma {:induction false} OthersRead(rest: seq<string>)
    ensures Decode("fastak_expires", [" +12\n"] + rest) == Some(Number(12))
    ensures Decode("fastak_expires", ["soon"] + rest) == None
    ensures Decode("fastak_user_type", [""] + rest) == Some(Word("")) && Decode("mail", ["true"] + rest) == None
  {
    IntsTaken();
    IntsRefused();
  }

  lemma {:induction false} LowerOfUpper()
    ensures Lower("TRUE") == "true" && Lower("FALSE") == "false" && Lower("1") != "true" && Lower("0") != "false"
  {
  }

  // ---------------------------------------------------------------- the dictionary

  function Parsed(raw: Raw): Attrs {
    map name | name in raw && Decode(name, raw[name]).Some? :: Decode(name, raw[name]).value
  }

  function RawOf(attrs: Attrs): Raw {
    map name | name in attrs :: Rendered(attrs[name])
  }

  function Present(attrs: Attrs): Attrs {
    map name | name in attrs && attrs[name] != Clear :: attrs[name]
  }

  lemma {:induction false} ParsedIsWellTyped(raw: Raw)
    ensures WellTyped(Parsed(raw)) && Present(Parsed(raw)) == Parsed(raw)
  {
  }

  lemma {:induction false} NameReadsBack(raw: Raw, attrs: Attrs, name: string)
    requires WellTyped(attrs)
    ensures var after, expected := Parsed(raw + RawOf(attrs)), (Parsed(raw) - attrs.Keys) + Present(attrs);
            && (name in after <==> name in expected)
            && (name in after ==> after[name] == expected[name])
  {
    if name in attrs {
      EntryRoundTrip(name, attrs[name]);
      assert (raw + RawOf(attrs))[name] == Rendered(attrs[name]);
    }
  }

  /** Writing a dictionary over a store and reading back changes exactly the names written. */
  lemma {:induction false} WriteThenRead(raw: Raw, attrs: Attrs)
    requires WellTyped(attrs)
    ensures Parsed(raw + RawOf(attrs)) == (Parsed(raw) - attrs.Keys) + Present(attrs)
    ensures forall name :: name in raw && !Known(name) ==> (raw + RawOf(attrs))[name] == raw[name]
  {
    var after, expected := Parsed(raw + RawOf(attrs)), (Parsed(raw) - attrs.Keys) + Present(attrs);
    forall name
      ensures name in after <==> name in expected
      ensures name in after ==> after[name] == expected[name]
    {
      NameReadsBack(raw, attrs, name);
    }
  }

  /** The round trip: every known attribute comes back, and cleared ones are gone. */
  lemma {:induction false} CodecRoundTrip(attrs: Attrs)
    requires WellTyped(attrs)
    ensures Parsed(RawOf(attrs)) == Present(attrs)
  {
    WriteThenRead(map[], attrs);
    assert map[] + RawOf(attrs) == RawOf(attrs);
    assert (Parsed(map[]) - attrs.Keys) + Present(attrs) == Present(attrs);
  }

  // ---------------------------------------------------------------- the lists on the wire

  /** The entries of a store, each once, in some order. */
  ghost predicate Listing(entries: seq<Entry>, raw: Raw) {
    && (forall i, j :: 0 <= i < j < |entries| ==> entries[i].name != entries[j].name)
    && (forall e :: e in entries ==> e.name in raw && raw[e.name] == e.value)
    && forall name :: name in raw ==> Entry(name, raw[name]) in entries
  }

  lemma {:induction false} EntryParsed(raw: Raw, e: Entry)
    requires e.name in raw && raw[e.name] == e.value
    ensures e.name in Parsed(raw) <==> Decode(e.name, e.value).Some?
    ensures e.name in Parsed(raw) ==> Parsed(raw)[e.name] == Decode(e.name, e.value).value
  {
  }

  method ParseAttributes(entries: seq<Entry>, ghost raw: Raw) returns (result: Attrs)
    requires Listing(entries, raw)
    ensures result == Parsed(raw)
  {
    result := map[];
    for i := 0 to |entries|
      invariant result == ParsedUpTo(entries[..i], Parsed(raw))
    {
      var e := entries[i];
      assert e in entries && entries[..i + 1] == entries[..i] + [e];
      var v := ParseEntry(e, raw);
      NextParsed(entries[..i], Parsed(raw), e);
      if v.Some? {
        result := result[e.name := v.value];
      }
    }
    assert entries[..|entries|] == entries;
    EveryNameListed(entries, raw);
  }

  /** The part of a dictionary whose names are among the entries. */
  ghost function ParsedUpTo(entries: seq<Entry>, parsed: Attrs): Attrs {
    map name | name in parsed && Named(entries, name) :: parsed[name]
  }

  predicate Named(entries: seq<Entry>, name: string) {
    exists k :: 0 <= k < |entries| && entries[k].name == name
  }

  lemma {:induction false} NextParsed(entries: seq<Entry>, parsed: Attrs, e: Entry)
    ensures var before, after := ParsedUpTo(entries, parsed), ParsedUpTo(entries + [e], parsed);
            after == if e.name in parsed then before[e.name := parsed[e.name]] else before
  {
    forall name ensures Named(entries + [e], name) <==> Named(entries, name) || name == e.name {
      assert (entries + [e])[|entries|] == e;
      if Named(entries, name) {
        var k :| 0 <= k < |entries| && entries[k].name == name;
        assert (entries + [e])[k].name == name;
      }
    }
  }

  lemma {:induction false} EveryNameListed(entries: seq<Entry>, raw: Raw)
    requires Listing(entries, raw)
    ensures ParsedUpTo(entries, Parsed(raw)) == Parsed(raw)
  {
    forall name | name in Parsed(raw) ensures Named(entries, name) {
      assert Entry(name, raw[name]) in entries;
    }
  }

  /** One turn of that loop: what the entry puts under its name, if anything. */
  method ParseEntry(e: Entry, ghost raw: Raw) returns (v: Option<Value>)
    requires e.name in raw && raw[e.name] == e.value
    ensures v == if e.name in Parsed(raw) then Some(Parsed(raw)[e.name]) else None
  {
    EntryParsed(raw, e);
    if !Known(e.name) || e.value == [] {
      return None;
    }
    if e.name == EXPIRES {
      var n := ParseInt(e.value[0]);
      return if n.Some? then Some(Number(n.value)) else None;
    } else if e.name == REVOKED {
      return Some(Flag(Lower(e.value[0]) == "true"));
    } else if e.name == ACTIVE {
      return Some(Flag(Lower(e.value[0]) != "false"));
    } else {
      return Some(Word(e.value[0]));
    }
  }

  method BuildCustomAttributes(attrs: Attrs) returns (entries: seq<Entry>)
    ensures Listing(entries, RawOf(attrs))
  {
    entries := [];
    var left := attrs.Keys;
    while left != {}
      invariant left <= attrs.Keys
      invariant Listing(entries, map name | name in attrs.Keys - left :: Rendered(attrs[name]))
    {
      var name :| name in left;
      entries := entries + [Entry(name, Rendered(attrs[name]))];
      left := left - {name};
    }
    assert (map name | name in attrs.Keys - left :: Rendered(attrs[name])) == RawOf(attrs);
  }
}
