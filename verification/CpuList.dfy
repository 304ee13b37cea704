/** Parsing of CPU lists such as "0-2,4,6-8". */
module CpuList {
  import opened Common
  import opened CpuTopology

  // ---------- text ----------

  /** The pieces after one more character was put in front. */
  function Prepend(c: char, pieces: seq<string>, sep: char): (r: seq<string>)
    requires |pieces| >= 1
    ensures |r| >= 1
  {
    if c == sep then [""] + pieces else [[c] + pieces[0]] + pieces[1..]
  }

  /** `str::split` on one character: always at least one piece. */
  function Split(s: string, sep: char): (pieces: seq<string>)
    ensures |pieces| >= 1
  {
    if |s| == 0 then [""] else Prepend(s[0], Split(s[1..], sep), sep)
  }

  /** Unicode White_Space, which `str::trim` removes. */
  predicate IsSpace(c: char) {
    || '\t' <= c <= '\r'
    || c == ' '
    || c == '\U{85}'
    || c == '\U{A0}'
    || c == '\U{1680}'
    || '\U{2000}' <= c <= '\U{200A}'
    || c == '\U{2028}'
    || c == '\U{2029}'
    || c == '\U{202F}'
    || c == '\U{205F}'
    || c == '\U{3000}'
  }

  function TrimStart(s: string): string {
    if |s| > 0 && IsSpace(s[0]) then TrimStart(s[1..]) else s
  }

  function TrimEnd(s: string): string {
    if |s| > 0 && IsSpace(s[|s| - 1]) then TrimEnd(s[..|s| - 1]) else s
  }

  function Trim(s: string): string {
    TrimStart(TrimEnd(s))
  }

  predicate IsDigit(c: char) {
    '0' <= c <= '9'
  }

  predicate AllDigits(s: string) {
    forall k :: 0 <= k < |s| ==> IsDigit(s[k])
  }

  function Value(s: string): nat
    requires AllDigits(s)
  {
    if |s| == 0 then 0 else 10 * Value(s[..|s| - 1]) + ((s[|s| - 1] as int) - ('0' as int))
  }

  /** `str::parse::<usize>`: an optional plus sign, then at least one digit, within 64 bits. */
  function ParseUsize(s: string): Option<nat> {
    var digits := if |s| > 0 && s[0] == '+' then s[1..] else s;
    if |digits| > 0 && AllDigits(digits) && Value(digits) < U64_MODULUS then Some(Value(digits)) else None
  }

  // ---------- the parser ----------

  /** The cores a comma-free part stands for; a part that does not parse stands for none. */
  function PartCores(part: string): seq<nat> {
    if '-' in part then
      var ends := Split(part, '-');
      if |ends| != 2 then []
      else
        var first, last := ParseUsize(Trim(ends[0])), ParseUsize(Trim(ends[1]));
        if first.Some? && last.Some? && first.value <= last.value then Range(first.value, last.value + 1) else []
    else
      var core := ParseUsize(Trim(part));
      if core.Some? then [core.value] else []
  }

  function AllCores(parts: seq<string>): seq<nat> {
    if |parts| == 0 then [] else AllCores(parts[..|parts| - 1]) + PartCores(parts[|parts| - 1])
  }

  function Parse(s: string): seq<nat> {
    AllCores(Split(s, ','))
  }

  /** `parse_cpu_list`: the loop that pushes into the vector. */
  method ParseCpuList(cpulist: string) returns (cores: seq<nat>)
    ensures cores == Parse(cpulist)
  {
    cores := [];
    var parts := Split(cpulist, ',');
    for k := 0 to |parts|
      invariant cores == AllCores(parts[..k])
    {
      var part := parts[k];
      if '-' in part {
        var ends := Split(part, '-');
        if |ends| == 2 {
          var first := ParseUsize(Trim(ends[0]));
          var last := ParseUsize(Trim(ends[1]));
          if first.Some? && last.Some? && first.value <= last.value {
            cores := cores + Range(first.value, last.value + 1);
          }
        }
      } else {
        var core := ParseUsize(Trim(part));
        if core.Some? {
          cores := cores + [core.value];
        }
      }
      assert parts[..k + 1][..k] == parts[..k];
    }
    assert parts[..|parts|] == parts;
  }

  // ---------- lists can be parsed piece by piece ----------

  lemma SplitCons(c: char, s: string, sep: char)
    ensures Split([c] + s, sep) == Prepend(c, Split(s, sep), sep)
  {
    assert ([c] + s)[1..] == s;
  }

  lemma PrependConcat(c: char, p: seq<string>, q: seq<string>, sep: char)
    requires |p| >= 1
    ensures Prepend(c, p + q, sep) == Prepend(c, p, sep) + q
  {
  }

  lemma {:induction false} SplitConcat(a: string, b: string, sep: char)
    ensures Split(a + [sep] + b, sep) == Split(a, sep) + Split(b, sep)
  {
    if |a| == 0 {
      SplitCons(sep, b, sep);
      assert a + [sep] + b == [sep] + b;
    } else {
      hide Split, Prepend;
      var c, rest := a[0], a[1..];
      SplitConcat(rest, b, sep);
      SplitCons(c, rest, sep);
      SplitCons(c, rest + [sep] + b, sep);
      assert a == [c] + rest;
      assert a + [sep] + b == [c] + (rest + [sep] + b);
      PrependConcat(c, Split(rest, sep), Split(b, sep), sep);
    }
  }

  lemma {:induction false} AllCoresConcat(p: seq<string>, q: seq<string>)
    ensures AllCores(p + q) == AllCores(p) + AllCores(q)
  {
    hide PartCores;
    if |q| == 0 {
      assert p + q == p;
    } else {
      var front, last := q[..|q| - 1], q[|q| - 1];
      assert (p + q)[..|p + q| - 1] == p + front && (p + q)[|p + q| - 1] == last;
      AllCoresConcat(p, front);
      assert AllCores(p + q) == AllCores(p) + AllCores(front) + PartCores(last);
    }
  }

  /** Parsing is a homomorphism: joining two lists with a comma, whatever they contain, concatenates
      what they stand for. */
  lemma ParseConcat(a: string, b: string)
    ensures Parse(a + "," + b) == Parse(a) + Parse(b)
  {
    SplitConcat(a, b, ',');
    AllCoresConcat(Split(a, ','), Split(b, ','));
  }

  // ---------- printing ----------

  datatype Item = Core(n: nat) | Span(first: nat, last: nat)

  function Digit(d: nat): char
    requires d < 10
  {
    ('0' as int + d) as char
  }

  function Decimal(n: nat): (s: string)
    ensures |s| > 0
  {
    if n < 10 then [Digit(n)] else Decimal(n / 10) + [Digit(n % 10)]
  }

  function PrintItem(item: Item): string {
    match item
    case Core(n) => Decimal(n)
    case Span(a, b) => Decimal(a) + "-" + Decimal(b)
  }

  function Print(items: seq<Item>): string {
    if |items| == 0 then ""
    else if |items| == 1 then PrintItem(items[0])
    else Print(items[..|items| - 1]) + "," + PrintItem(items[|items| - 1])
  }

  /** The cores an item names; a span with its ends the wrong way round names none. */
  function Expand(items: seq<Item>): seq<nat> {
    if |items| == 0 then []
    else
      Expand(items[..|items| - 1]) +
      (match items[|items| - 1]
       case Core(n) => [n]
       case Span(a, b) => if a <= b then Range(a, b + 1) else [])
  }

  predicate FitsUsize(item: Item) {
    match item
    case Core(n) => n < U64_MODULUS
    case Span(a, b) => a < U64_MODULUS && b < U64_MODULUS
  }

  lemma ValueSnoc(s: string, d: nat)
    requires AllDigits(s) && d < 10
    ensures AllDigits(s + [Digit(d)]) && Value(s + [Digit(d)]) == 10 * Value(s) + d
  {
    var t := s + [Digit(d)];
    assert t[..|t| - 1] == s && t[|t| - 1] == Digit(d);
    assert IsDigit(Digit(d));
  }

  lemma {:induction false} DecimalIsDigits(n: nat)
    ensures AllDigits(Decimal(n)) && Value(Decimal(n)) == n
  {
    if n < 10 {
      ValueSnoc("", n);
      assert "" + [Digit(n)] == [Digit(n)];
    } else {
      DecimalIsDigits(n / 10);
      ValueSnoc(Decimal(n / 10), n % 10);
    }
  }

  lemma DecimalParses(n: nat)
    requires n < U64_MODULUS
    ensures ParseUsize(Trim(Decimal(n))) == Some(n)
  {
    DecimalIsDigits(n);
    var s := Decimal(n);
    assert IsDigit(s[0]) && IsDigit(s[|s| - 1]);
  }

  lemma {:induction false} SplitWithout(s: string, sep: char)
    requires sep !in s
    ensures Split(s, sep) == [s]
  {
    if |s| > 0 {
      assert s == [s[0]] + s[1..] && s[0] in s;
      SplitWithout(s[1..], sep);
      SplitCons(s[0], s[1..], sep);
    }
  }

  lemma SinglePart(s: string)
    requires ',' !in s
    ensures Parse(s) == PartCores(s)
  {
    hide PartCores;
    SplitWithout(s, ',');
    assert [s][..0] == [];
  }

  lemma CoreParses(n: nat)
    requires n < U64_MODULUS
    ensures Parse(Decimal(n)) == [n]
  {
    DecimalIsDigits(n);
    DecimalParses(n);
    SinglePart(Decimal(n));
    assert '-' !in Decimal(n);
  }

  lemma SpanParses(a: nat, b: nat)
    requires a < U64_MODULUS && b < U64_MODULUS
    ensures Parse(Decimal(a) + "-" + Decimal(b)) == if a <= b then Range(a, b + 1) else []
  {
    DecimalIsDigits(a);
    DecimalIsDigits(b);
    DecimalParses(a);
    DecimalParses(b);
    NoSeparators(Decimal(a));
    NoSeparators(Decimal(b));
    SpanText(Decimal(a), Decimal(b));
  }

  lemma NoSeparators(s: string)
    requires AllDigits(s)
    ensures '-' !in s && ',' !in s
  {
  }

  lemma ItemParses(item: Item)
    requires FitsUsize(item)
    ensures Parse(PrintItem(item)) == Expand([item])
  {
    hide Parse, Decimal;
    assert [item][..0] == [];
    match item
    case Core(n) => CoreParses(n);
    case Span(a, b) => SpanParses(a, b);
  }

  /** Parsing inverts printing: the printed form of any list of cores and spans of usize values parses
      to exactly their expansion, in order. */
  lemma {:induction false} ParsePrint(items: seq<Item>)
    requires forall k :: 0 <= k < |items| ==> FitsUsize(items[k])
    ensures Parse(Print(items)) == Expand(items)
  {
    if |items| == 0 {
      EmptyParses();
    } else {
      var front, last := items[..|items| - 1], items[|items| - 1];
      assert items == front + [last];
      assert Print(items) == if |items| == 1 then PrintItem(last) else Print(front) + "," + PrintItem(last);
      assert |items| == 1 ==> front == [] && Expand(front) == [];
      hide Parse, Print, PrintItem, FitsUsize, Expand;
      ItemParses(last);
      ExpandSnoc(front, last);
      if |items| > 1 {
        ParsePrint(front);
        ParseConcat(Print(front), PrintItem(last));
      }
    }
  }

  lemma ExpandSnoc(items: seq<Item>, item: Item)
    ensures Expand(items + [item]) == Expand(items) + Expand([item])
  {
    assert (items + [item])[..|items|] == items;
    assert [item][..0] == [];
  }

  lemma EmptyParses()
    ensures Parse("") == []
  {
    assert Split("", ',') == [""];
    assert [""][..0] == [];
  }

  // ---------- a trailing newline ----------

  /** The pieces after one more character was put at the end. */
  function Append(pieces: seq<string>, c: char): seq<string>
    requires |pieces| >= 1
  {
    pieces[..|pieces| - 1] + [pieces[|pieces| - 1] + [c]]
  }

  lemma PrependAppend(first: char, p: seq<string>, c: char, sep: char)
    requires |p| >= 1
    ensures Prepend(first, Append(p, c), sep) == Append(Prepend(first, p, sep), c)
  {
    if first != sep && |p| == 1 {
      assert [first] + (p[0] + [c]) == [first] + p[0] + [c];
    }
  }

  lemma {:induction false} SplitSnoc(s: string, c: char, sep: char)
    requires c != sep
    ensures Split(s + [c], sep) == Append(Split(s, sep), c)
  {
    if |s| == 0 {
      SplitCons(c, "", sep);
      assert s + [c] == [c] + "";
      assert Split("", sep) == [""];
    } else {
      hide Split, Prepend, Append;
      var first, rest := s[0], s[1..];
      SplitSnoc(rest, c, sep);
      SplitCons(first, rest, sep);
      SplitCons(first, rest + [c], sep);
      assert s == [first] + rest && s + [c] == [first] + (rest + [c]);
      PrependAppend(first, Split(rest, sep), c, sep);
    }
  }

  lemma {:induction false} TrimEndSnoc(s: string, c: char)
    ensures TrimEnd(s + [c]) == if IsSpace(c) then TrimEnd(s) else s + [c]
  {
    assert (s + [c])[..|s + [c]| - 1] == s;
  }

  lemma TrimSnoc(s: string, c: char)
    requires IsSpace(c)
    ensures Trim(s + [c]) == Trim(s)
  {
    TrimEndSnoc(s, c);
  }

  lemma DashSnoc(part: string, c: char)
    requires c != '-'
    ensures '-' in part + [c] <==> '-' in part
  {
  }

  lemma PartSnoc(part: string, c: char)
    requires IsSpace(c)
    ensures PartCores(part + [c]) == PartCores(part)
  {
    assert c != '-';
    DashSnoc(part, c);
    hide IsSpace, Split, Trim, ParseUsize;
    if '-' in part {
      SplitSnoc(part, c, '-');
      var p := Split(part, '-');
      var q := Split(part + [c], '-');
      assert |q| == |p|;
      if |p| == 2 {
        assert q[0] == p[0] && q[1] == p[1] + [c];
        TrimSnoc(p[1], c);
      }
    } else {
      TrimSnoc(part, c);
    }
  }

  lemma SpaceAtTheEnd(s: string, c: char)
    requires IsSpace(c)
    ensures Parse(s + [c]) == Parse(s)
  {
    SplitSnoc(s, c, ',');
    var p := Split(s, ',');
    var q := Split(s + [c], ',');
    assert q[..|q| - 1] == p[..|p| - 1] && q[|q| - 1] == p[|p| - 1] + [c];
    PartSnoc(p[|p| - 1], c);
    hide Split, PartCores;
  }

  /** White space at the end, such as the newline of a sysfs file, changes nothing. */
  lemma TrailingSpaceIsIgnored(s: string)
    ensures Parse(s + "\n") == Parse(s)
    ensures Parse(s + " ") == Parse(s)
    ensures Parse(s + "\t") == Parse(s)
    ensures Parse(s + "\r") == Parse(s)
  {
    SpaceAtTheEnd(s, '\n');
    SpaceAtTheEnd(s, ' ');
    SpaceAtTheEnd(s, '\t');
    SpaceAtTheEnd(s, '\r');
  }

  /** A printed list with the newline that ends a sysfs file. */
  lemma ParsePrintedLine(items: seq<Item>)
    requires forall k :: 0 <= k < |items| ==> FitsUsize(items[k])
    ensures Parse(Print(items) + "\n") == Expand(items)
  {
    hide Parse, Print, Expand;
    ParsePrint(items);
    TrailingSpaceIsIgnored(Print(items));
  }

  /** The characters with the Unicode property White_Space, by code point. */
  lemma WhiteSpaceIs(c: char)
    ensures IsSpace(c) <==>
            (c as int) in {0x09, 0x0A, 0x0B, 0x0C, 0x0D, 0x20, 0x85, 0xA0, 0x1680, 0x2000, 0x2001, 0x2002, 0x2003,
                           0x2004, 0x2005, 0x2006, 0x2007, 0x2008, 0x2009, 0x200A, 0x2028, 0x2029, 0x202F, 0x205F,
                           0x3000}
  {
  }

  // ---------- what the text of a number means ----------

  predicate AllSpace(s: string) {
    forall k :: 0 <= k < |s| ==> IsSpace(s[k])
  }

  /** The first and the last character, if any, are not white space. */
  predicate Tight(t: string) {
    |t| > 0 ==> !IsSpace(t[0]) && !IsSpace(t[|t| - 1])
  }

  lemma {:induction false} TrimEndSpaces(s: string, post: string)
    requires AllSpace(post)
    ensures TrimEnd(s + post) == TrimEnd(s)
  {
    if |post| == 0 {
      assert s + post == s;
    } else {
      var n := |post| - 1;
      TrimEndSpaces(s, post[..n]);
      TrimEndSnoc(s + post[..n], post[n]);
      assert s + post == s + post[..n] + [post[n]];
    }
  }

  lemma {:induction false} TrimStartSpaces(pre: string, s: string)
    requires AllSpace(pre)
    ensures TrimStart(pre + s) == TrimStart(s)
  {
    if |pre| == 0 {
      assert pre + s == s;
    } else {
      TrimStartSpaces(pre[1..], s);
      assert (pre + s)[1..] == pre[1..] + s;
    }
  }

  /** Trimming takes off white space at both ends and nothing else. */
  lemma TrimOf(pre: string, t: string, post: string)
    requires AllSpace(pre) && AllSpace(post) && Tight(t)
    ensures Trim(pre + t + post) == t
  {
    TrimEndSpaces(pre + t, post);
    if |t| > 0 {
      assert (pre + t)[|pre + t| - 1] == t[|t| - 1];
      TrimStartSpaces(pre, t);
    } else {
      assert pre + t == "" + pre;
      TrimEndSpaces("", pre);
    }
  }

  lemma {:induction false} TrimEndSplits(s: string) returns (post: string)
    ensures s == TrimEnd(s) + post && AllSpace(post)
    ensures |TrimEnd(s)| > 0 ==> !IsSpace(TrimEnd(s)[|TrimEnd(s)| - 1])
  {
    if |s| > 0 && IsSpace(s[|s| - 1]) {
      var n := |s| - 1;
      post := TrimEndSplits(s[..n]);
      assert s == TrimEnd(s) + (post + [s[n]]);
      post := post + [s[n]];
    } else {
      post := "";
    }
  }

  lemma {:induction false} TrimStartSplits(s: string) returns (pre: string)
    ensures s == pre + TrimStart(s) && AllSpace(pre)
    ensures |TrimStart(s)| > 0 ==> !IsSpace(TrimStart(s)[0])
  {
    if |s| > 0 && IsSpace(s[0]) {
      pre := TrimStartSplits(s[1..]);
      assert s == ([s[0]] + pre) + TrimStart(s);
      pre := [s[0]] + pre;
    } else {
      pre := "";
    }
  }

  lemma TrimSplits(s: string) returns (pre: string, post: string)
    ensures s == pre + Trim(s) + post && AllSpace(pre) && AllSpace(post) && Tight(Trim(s))
  {
    post := TrimEndSplits(s);
    pre := TrimStartSplits(TrimEnd(s));
    var e, t := TrimEnd(s), Trim(s);
    if |t| > 0 { assert t[|t| - 1] == e[|e| - 1]; }
  }

  /** s is white space, an optional plus sign, at least one digit, white space; and n is its value. */
  predicate WrittenAs(s: string, n: nat, pre: string, sign: string, digits: string, post: string) {
    && s == pre + (sign + digits) + post
    && AllSpace(pre) && AllSpace(post) && (sign == "" || sign == "+")
    && |digits| > 0 && AllDigits(digits) && Value(digits) == n < U64_MODULUS
  }

  ghost predicate Denotes(s: string, n: nat) {
    exists pre, sign, digits, post :: WrittenAs(s, n, pre, sign, digits, post)
  }

  lemma NumeralParses(s: string, n: nat)
    requires Denotes(s, n)
    ensures ParseUsize(Trim(s)) == Some(n)
  {
    var pre, sign, digits, post :| WrittenAs(s, n, pre, sign, digits, post);
    var t := sign + digits;
    assert t[|t| - 1] == digits[|digits| - 1] && IsDigit(digits[|digits| - 1]) && IsDigit(digits[0]);
    assert Tight(t);
    TrimOf(pre, t, post);
    assert sign == "" ==> t == digits;
    assert sign == "+" ==> t[1..] == digits;
  }

  lemma ParsedIsNumeral(s: string)
    requires ParseUsize(Trim(s)).Some?
    ensures Denotes(s, ParseUsize(Trim(s)).value)
  {
    var pre, post := TrimSplits(s);
    var t := Trim(s);
    var n := ParseUsize(t).value;
    if t[0] == '+' {
      assert t == "+" + t[1..];
      assert WrittenAs(s, n, pre, "+", t[1..], post);
    } else {
      assert t == "" + t;
      assert WrittenAs(s, n, pre, "", t, post);
    }
  }

  /** A part without comma and dash stands for the number it denotes, and for nothing if it denotes none. */
  lemma NumberPart(s: string)
    requires ',' !in s && '-' !in s
    ensures forall n: nat :: Denotes(s, n) ==> Parse(s) == [n]
    ensures (forall n: nat :: !Denotes(s, n)) ==> Parse(s) == []
  {
    SinglePart(s);
    hide Denotes, ParseUsize, Trim, Parse;
    forall n: nat | Denotes(s, n)
      ensures Parse(s) == [n]
    {
      NumeralParses(s, n);
    }
    if ParseUsize(Trim(s)).Some? { ParsedIsNumeral(s); }
  }

  lemma SpanText(x: string, y: string)
    requires '-' !in x && '-' !in y && ',' !in x && ',' !in y
    ensures var a, b := ParseUsize(Trim(x)), ParseUsize(Trim(y));
            Parse(x + "-" + y) ==
            if a.Some? && b.Some? && a.value <= b.value then Range(a.value, b.value + 1) else []
  {
    hide ParseUsize, Trim, Split, Parse;
    var s := x + "-" + y;
    assert s[|x|] == '-';
    SplitConcat(x, y, '-');
    SplitWithout(x, '-');
    SplitWithout(y, '-');
    assert Split(s, '-') == [x] + [y] == [x, y];
    SinglePart(s);
  }

  /** A part with one dash stands for the cores from the left to the right number, none if they are the
      wrong way round, and for nothing if either side denotes no number. */
  lemma SpanPart(x: string, y: string)
    requires '-' !in x && '-' !in y && ',' !in x && ',' !in y
    ensures forall a: nat, b: nat :: Denotes(x, a) && Denotes(y, b) ==>
              Parse(x + "-" + y) == if a <= b then Range(a, b + 1) else []
    ensures (forall a: nat :: !Denotes(x, a)) || (forall b: nat :: !Denotes(y, b)) ==> Parse(x + "-" + y) == []
  {
    SpanText(x, y);
    hide Denotes, ParseUsize, Trim, Parse;
    forall a: nat, b: nat | Denotes(x, a) && Denotes(y, b)
      ensures Parse(x + "-" + y) == if a <= b then Range(a, b + 1) else []
    {
      NumeralParses(x, a);
      NumeralParses(y, b);
    }
    if ParseUsize(Trim(x)).Some? { ParsedIsNumeral(x); }
    if ParseUsize(Trim(y)).Some? { ParsedIsNumeral(y); }
  }

  /** A part with two dashes or more stands for nothing. */
  lemma ManyDashesPart(x: string, y: string, z: string)
    requires ',' !in x && ',' !in y && ',' !in z
    ensures Parse(x + "-" + y + "-" + z) == []
  {
    var s := x + "-" + y + "-" + z;
    assert s == x + "-" + (y + "-" + z);
    assert s[|x|] == '-';
    SplitConcat(x, y + "-" + z, '-');
    SplitConcat(y, z, '-');
    SinglePart(s);
    hide Split, Parse, Trim, ParseUsize;
  }

  // ---------- blanks inside a list ----------

  /** Blanks, tabs and line ends, written out. */
  predicate Blank(s: string) {
    forall k :: 0 <= k < |s| ==> s[k] == ' ' || s[k] == '\t' || s[k] == '\n' || s[k] == '\r'
  }

  /** An item with blanks around its numbers. */
  datatype Spaced = Spaced(item: Item, w0: string, w1: string, w2: string, w3: string)

  predicate BlanksOnly(p: Spaced) {
    Blank(p.w0) && Blank(p.w1) && Blank(p.w2) && Blank(p.w3)
  }

  function PrintSpaced(p: Spaced): string {
    match p.item
    case Core(n) => p.w0 + Decimal(n) + p.w1
    case Span(a, b) => p.w0 + Decimal(a) + p.w1 + "-" + (p.w2 + Decimal(b) + p.w3)
  }

  function PrintSpacedList(parts: seq<Spaced>): string {
    if |parts| == 0 then ""
    else if |parts| == 1 then PrintSpaced(parts[0])
    else PrintSpacedList(parts[..|parts| - 1]) + "," + PrintSpaced(parts[|parts| - 1])
  }

  function Items(parts: seq<Spaced>): (r: seq<Item>)
    ensures |r| == |parts|
    ensures forall k :: 0 <= k < |parts| ==> r[k] == parts[k].item
  {
    seq(|parts|, k requires 0 <= k < |parts| => parts[k].item)
  }

  lemma SpacedDecimal(pre: string, n: nat, post: string)
    requires Blank(pre) && Blank(post) && n < U64_MODULUS
    ensures Denotes(pre + Decimal(n) + post, n)
    ensures '-' !in pre + Decimal(n) + post && ',' !in pre + Decimal(n) + post
  {
    DecimalIsDigits(n);
    var digits := Decimal(n);
    hide Decimal, Value;
    NoSeparators(digits);
    BlanksAreSpace(pre);
    BlanksAreSpace(post);
    assert "" + digits == digits;
    hide IsSpace, IsDigit, AllSpace;
    assert WrittenAs(pre + digits + post, n, pre, "", digits, post);
  }

  lemma BlanksAreSpace(s: string)
    requires Blank(s)
    ensures AllSpace(s) && '-' !in s && ',' !in s
  {
  }

  lemma SpacedItemParses(p: Spaced)
    requires BlanksOnly(p) && FitsUsize(p.item)
    ensures Parse(PrintSpaced(p)) == Expand([p.item])
  {
    hide Parse, Decimal, Denotes;
    assert [p.item][..0] == [];
    match p.item
    case Core(n) =>
      SpacedDecimal(p.w0, n, p.w1);
      NumberPart(p.w0 + Decimal(n) + p.w1);
    case Span(a, b) =>
      SpacedDecimal(p.w0, a, p.w1);
      SpacedDecimal(p.w2, b, p.w3);
      SpanPart(p.w0 + Decimal(a) + p.w1, p.w2 + Decimal(b) + p.w3);
  }

  lemma SpacedListSnoc(parts: seq<Spaced>)
    requires |parts| > 0
    ensures var front, last := parts[..|parts| - 1], parts[|parts| - 1];
            && Items(parts) == Items(front) + [last.item]
            && PrintSpacedList(parts) ==
               (if |parts| == 1 then PrintSpaced(last) else PrintSpacedList(front) + "," + PrintSpaced(last))
            && (|parts| == 1 ==> Items(front) == [] && Expand(Items(front)) == [])
  {
    hide PrintSpaced;
  }

  /** Blanks before and after every number, after a comma or around a dash, change nothing. */
  lemma {:induction false} ParseSpacedPrint(parts: seq<Spaced>)
    requires forall k :: 0 <= k < |parts| ==> BlanksOnly(parts[k]) && FitsUsize(parts[k].item)
    ensures Parse(PrintSpacedList(parts)) == Expand(Items(parts))
  {
    if |parts| == 0 {
      EmptyParses();
    } else {
      var front, last := parts[..|parts| - 1], parts[|parts| - 1];
      SpacedListSnoc(parts);
      hide Parse, PrintSpaced, PrintSpacedList, FitsUsize, BlanksOnly, Expand, Items;
      SpacedItemParses(last);
      ExpandSnoc(Items(front), last.item);
      if |parts| > 1 {
        ParseSpacedPrint(front);
        ParseConcat(PrintSpacedList(front), PrintSpaced(last));
      }
    }
  }
}
