/** JSON values and their text, as `print_value` and its helpers write it:
    compact, or formatted with ", " between array elements and one tab-indented
    line per object member. */
module JsonValue {
  import opened JsonNumber

  datatype Json =
    | Null
    | Bool(b: bool)
    | Number(n: real)
    | String(s: string)
    | Array(items: seq<Json>)
    | Object(members: seq<Member>)

  datatype Member = Member(key: string, value: Json)

  const NESTING_LIMIT := 1000

  predicate NulFree(s: string) {
    '\0' !in s
  }

  /** Integers that "%1.15g" writes without an exponent. */
  predicate PlainInteger(x: real) {
    x == x.Floor as real && -1000000000000000.0 < x < 1000000000000000.0
  }

  /** The values whose text this model defines: C strings and plain integers. */
  predicate Printable(v: Json)
    decreases v, 1
  {
    match v
    case Null => true
    case Bool(_) => true
    case Number(n) => PlainInteger(n)
    case String(s) => NulFree(s)
    case Array(items) => PrintableItems(items)
    case Object(members) => PrintableMembers(members)
  }

  predicate PrintableItems(items: seq<Json>)
    decreases items, 0
  {
    items == [] || (Printable(items[0]) && PrintableItems(items[1..]))
  }

  predicate PrintableMembers(members: seq<Member>)
    decreases members, 0
  {
    members == [] || (PrintableMember(members[0]) && PrintableMembers(members[1..]))
  }

  predicate PrintableMember(m: Member)
    decreases m, 2
  {
    NulFree(m.key) && Printable(m.value)
  }

  function Max(a: nat, b: nat): nat {
    if a < b then b else a
  }

  /** How many arrays and objects surround the most deeply nested value. */
  function Nesting(v: Json): nat
    decreases v, 1
  {
    match v
    case Array(items) => 1 + NestingItems(items)
    case Object(members) => 1 + NestingMembers(members)
    case _ => 0
  }

  function NestingItems(items: seq<Json>): nat
    decreases items, 0
  {
    if items == [] then 0 else Max(Nesting(items[0]), NestingItems(items[1..]))
  }

  function NestingMembers(members: seq<Member>): nat
    decreases members, 0
  {
    if members == [] then 0 else Max(Nesting(members[0].value), NestingMembers(members[1..]))
  }

  const QUOTE: char := '\"'
  const BACKSLASH: char := '\\'

  /** Lower-case hexadecimal digit, as "%x" prints it. */
  function HexChar(d: int): char
    requires 0 <= d < 16
  {
    if d < 10 then ('0' as int + d) as char else ('a' as int + d - 10) as char
  }

  /** The letter after the backslash in a two-character escape, if `c` has one. */
  function ShortEscape(c: char): (e: seq<char>)
    ensures |e| <= 1
  {
    if c == QUOTE then [QUOTE]
    else if c == BACKSLASH then [BACKSLASH]
    else if c == '\U{8}' then "b"
    else if c == '\U{c}' then "f"
    else if c == '\n' then "n"
    else if c == '\r' then "r"
    else if c == '\t' then "t"
    else []
  }

  /** How one character of a string is written between the quotes. */
  function EscapeChar(c: char): (e: string)
    ensures e != ""
    ensures e[0] == BACKSLASH || e == [c]
  {
    if ShortEscape(c) != [] then [BACKSLASH] + ShortEscape(c)
    else if c < ' ' then "\\u00" + [HexChar(c as int / 16), HexChar(c as int % 16)]
    else [c]
  }

  function Escape(s: string): string {
    if s == "" then "" else EscapeChar(s[0]) + Escape(s[1..])
  }

  function Quote(s: string): string {
    [QUOTE] + Escape(s) + [QUOTE]
  }

  function Tabs(k: nat): (t: string)
    ensures |t| == k && forall i :: 0 <= i < k ==> t[i] == '\t'
  {
    seq(k, _ => '\t')
  }

  /** The text of `v`, printed at nesting `depth`. */
  function Render(v: Json, format: bool, depth: nat): string
    requires Printable(v)
    decreases v, 1
  {
    match v
    case Null => "null"
    case Bool(b) => if b then "true" else "false"
    case Number(n) => Decimal(n.Floor)
    case String(s) => Quote(s)
    case Array(items) => "[" + RenderItems(items, format, depth + 1) + "]"
    case Object(members) =>
      OpenBrace(format) + RenderMembers(members, format, depth + 1) + CloseBrace(format, depth)
  }

  function RenderItems(items: seq<Json>, format: bool, depth: nat): string
    requires PrintableItems(items)
    decreases items, 0
  {
    if items == [] then ""
    else Render(items[0], format, depth) + Comma(format, |items| > 1) + RenderItems(items[1..], format, depth)
  }

  function RenderMembers(members: seq<Member>, format: bool, depth: nat): string
    requires PrintableMembers(members)
    decreases members, 0
  {
    if members == [] then ""
    else RenderMember(members[0], format, depth, |members| > 1) + RenderMembers(members[1..], format, depth)
  }

  /** One member of an object: a line of its own when formatted. */
  function RenderMember(m: Member, format: bool, depth: nat, more: bool): string
    requires PrintableMember(m)
    decreases m, 2
  {
    KeyText(m.key, format, depth) + Render(m.value, format, depth) + EndMember(format, more)
  }

  function KeyText(key: string, format: bool, depth: nat): string {
    Indent(format, depth) + Quote(key) + Colon(format)
  }

  function Comma(format: bool, more: bool): string {
    if !more then "" else if format then ", " else ","
  }

  function OpenBrace(format: bool): string {
    if format then "{\n" else "{"
  }

  function CloseBrace(format: bool, depth: nat): string {
    if format then Tabs(depth) + "}" else "}"
  }

  function Indent(format: bool, depth: nat): string {
    if format then Tabs(depth) else ""
  }

  function Colon(format: bool): string {
    if format then ":\t" else ":"
  }

  function EndMember(format: bool, more: bool): string {
    (if more then "," else "") + (if format then "\n" else "")
  }
}
