/**
 * Format strings (`Fmt` in `kernel/fmt.h` and `kernel/fmt.cc`): how a list of
 * parts is written as the format string of a `$print` cell, and how it is read
 * back.
 */
module FmtTexts {
  import opened Wrappers

  /** A bit of a signal, by name. */
  type SigBit = nat

  datatype PartType = Literal | Integer | Text | Unichar | VlogTime
  datatype Justify = Right | Left | Numeric
  datatype Sign = Minus | PlusMinus | SpaceMinus

  datatype FmtPart = FmtPart(
    kind: PartType, str: string, sig: seq<SigBit>, justify: Justify, padding: char, width: nat,
    base: nat, signed': bool, sign: Sign, hexUpper: bool, showBase: bool, group: bool, realtime: bool)

  const NUL := '\0'

  /** A part whose fields have their initial values. */
  const EMPTY := FmtPart(Literal, "", [], Right, NUL, 0, 10, false, Minus, false, false, false, false)

  // ------------------------------------------------------------ numbers

  predicate Digit(c: char) {
    '0' <= c <= '9'
  }

  function DigitValue(c: char): nat
    requires Digit(c)
  {
    c as nat - '0' as nat
  }

  function DigitChar(d: nat): (c: char)
    requires d < 10
    ensures Digit(c) && DigitValue(c) == d
  {
    (d + '0' as nat) as char
  }

  /** `std::to_string`: no leading zeros. */
  function Decimal(n: nat): (s: string)
    ensures |s| > 0 && forall k | 0 <= k < |s| :: Digit(s[k])
    ensures n > 0 ==> s[0] != '0'
  {
    if n < 10 then [DigitChar(n)] else Decimal(n / 10) + [DigitChar(n % 10)]
  }

  /** What a digit string denotes, after the digits read so far. */
  function Number(n: nat, s: string): nat
    requires forall k | 0 <= k < |s| :: Digit(s[k])
  {
    if s == "" then n else 10 * Number(n, s[..|s| - 1]) + DigitValue(s[|s| - 1])
  }

  lemma {:induction false} DecimalNumber(n: nat)
    ensures Number(0, Decimal(n)) == n
  {
    var s := Decimal(n);
    if n < 10 {
      assert s[..|s| - 1] == "" && Number(0, s[..|s| - 1]) == 0;
    } else {
      DecimalNumber(n / 10);
      assert s[..|s| - 1] == Decimal(n / 10);
    }
  }

  lemma {:induction false} NumberFront(n: nat, s: string)
    requires |s| > 0 && forall k | 0 <= k < |s| :: Digit(s[k])
    ensures Number(n, s) == Number(10 * n + DigitValue(s[0]), s[1..])
    decreases |s|
  {
    var t := s[..|s| - 1];
    if |s| == 1 {
      assert t == "" && s[1..] == "" && Number(n, t) == n;
    } else {
      NumberFront(n, t);
      assert t[1..] == s[1..][..|s[1..]| - 1];
    }
  }

  // ------------------------------------------------------ printing

  /** What printing asserts of a part. */
  predicate Legal(p: FmtPart) {
    match p.kind
    case Literal => true
    case Unichar => |p.sig| <= 32
    case VlogTime => p.sig == [] && (p.width > 0 ==> p.padding != NUL)
    case Text => |p.sig| % 8 == 0 && (p.width > 0 ==> p.padding != NUL)
    case Integer => p.base in {2, 8, 10, 16} && (p.width > 0 ==> p.padding != NUL)
  }

  predicate AllLegal(ps: seq<FmtPart>) {
    forall k | 0 <= k < |ps| :: Legal(ps[k])
  }

  function Escape(c: char): string {
    if c == '{' then "{{" else if c == '}' then "}}" else [c]
  }

  function Escaped(s: string): string {
    if s == "" then "" else Escape(s[0]) + Escaped(s[1..])
  }

  function JustifyChar(j: Justify): char {
    match j case Right => '>' case Left => '<' case Numeric => '='
  }

  function BaseChar(p: FmtPart): char {
    if p.base == 2 then 'b' else if p.base == 8 then 'o' else if p.base == 10 then 'd' else if p.hexUpper then 'H' else 'h'
  }

  function SignChar(s: Sign): char {
    match s case Minus => '-' case PlusMinus => '+' case SpaceMinus => ' '
  }

  function PaddingChar(p: FmtPart): char {
    if p.padding != NUL then p.padding else ' '
  }

  /** The flags of an integer. */
  function Flags(p: FmtPart): string {
    [SignChar(p.sign)] + (if p.showBase then "#" else "") + (if p.group then "_" else "") + [if p.signed' then 's' else 'u']
  }

  function WidthText(p: FmtPart): string {
    if p.width > 0 then Decimal(p.width) else ""
  }

  function KindText(p: FmtPart): string {
    match p.kind
    case Integer => [BaseChar(p)] + Flags(p)
    case Text => "c"
    case _ => if p.realtime then "r" else "t"
  }

  /** What follows the padding. */
  function Tail(p: FmtPart): string {
    WidthText(p) + KindText(p) + "}"
  }

  /** A substitution behind its opening brace. */
  function Body(p: FmtPart): string {
    Decimal(|p.sig|) + ":" + [JustifyChar(p.justify)] + [PaddingChar(p)] + WidthText(p) + KindText(p) + "}"
  }

  /** A part as `emit_rtlil` writes it. */
  function Printed(p: FmtPart): string {
    match p.kind
    case Literal => Escaped(p.str)
    case Unichar => "{U}"
    case _ => "{" + Body(p)
  }

  function PrintedAll(ps: seq<FmtPart>): string {
    if ps == [] then "" else Printed(ps[0]) + PrintedAll(ps[1..])
  }

  /** What a part adds to the arguments. */
  function Taken(p: FmtPart): seq<SigBit> {
    if p.kind in {Integer, Text, VlogTime} then p.sig else []
  }

  /** The signals of the substitutions, one after the other. */
  function Args(ps: seq<FmtPart>): seq<SigBit> {
    if ps == [] then [] else Taken(ps[0]) + Args(ps[1..])
  }

  // ------------------------------------------------------ reading

  function Char(fmt: string, i: nat): char {
    if i < |fmt| then fmt[i] else NUL
  }

  predicate At(fmt: string, i: nat, t: string) {
    i + |t| <= |fmt| && forall k | 0 <= k < |t| :: t[k] == fmt[i + k]
  }

  predicate Doubled(fmt: string, i: nat, c: char) {
    i + 1 < |fmt| && fmt[i] == c && fmt[i + 1] == c
  }

  /** The number that continues n at i, and where it ends. */
  function ReadNumber(fmt: string, i: nat, n: nat): (r: (nat, nat))
    requires i <= |fmt|
    ensures i <= r.1 <= |fmt|
    ensures r.1 < |fmt| ==> !Digit(fmt[r.1])
    decreases |fmt| - i
  {
    if i < |fmt| && Digit(fmt[i]) then ReadNumber(fmt, i + 1, 10 * n + DigitValue(fmt[i])) else (n, i)
  }

  /** A part that was read, the arguments that are left, and where reading goes on. */
  datatype Parsed = Parsed(part: FmtPart, args: seq<SigBit>, next: nat)

  /** The closing brace. */
  function Closed(fmt: string, i: nat, p: FmtPart, args: seq<SigBit>): (r: Option<Parsed>)
    ensures r.Some? ==> i < r.value.next <= |fmt|
  {
    if Char(fmt, i) != '}' then None else Some(Parsed(p, args, i + 1))
  }

  /** An optional sign. */
  function ReadSign(fmt: string, i: nat, p: FmtPart): (r: (FmtPart, nat))
    requires i < |fmt|
    ensures i <= r.1 <= i + 1
  {
    if fmt[i] == '-' then (p.(sign := Minus), i + 1)
    else if fmt[i] == '+' then (p.(sign := PlusMinus), i + 1)
    else if fmt[i] == ' ' then (p.(sign := SpaceMinus), i + 1)
    else (p, i)
  }

  /** From the options of an integer to the closing brace. */
  function ReadOptions(fmt: string, i: nat, p: FmtPart, args: seq<SigBit>): (r: Option<Parsed>)
    ensures r.Some? ==> i < r.value.next <= |fmt|
  {
    var showBase := Char(fmt, i) == '#';
    var i1 := if showBase then i + 1 else i;
    var group := Char(fmt, i1) == '_';
    var i2 := if group then i1 + 1 else i1;
    if Char(fmt, i2) !in {'u', 's'} || i2 + 1 >= |fmt| then None
    else Closed(fmt, i2 + 1, Optioned(p, showBase, group, Char(fmt, i2) == 's'), args)
  }

  function Optioned(p: FmtPart, showBase: bool, group: bool, signed': bool): FmtPart {
    p.(showBase := p.showBase || showBase, group := p.group || group, signed' := signed')
  }

  /** From the flags of an integer to the closing brace. */
  function ReadFlags(fmt: string, i: nat, p: FmtPart, args: seq<SigBit>): (r: Option<Parsed>)
    requires i < |fmt|
    ensures r.Some? ==> i < r.value.next <= |fmt|
  {
    var (p1, i1) := ReadSign(fmt, i, p);
    if i1 == |fmt| then None else ReadOptions(fmt, i1, p1, args)
  }

  /** The part with what a type character says, if it is one. */
  function Typed(p: FmtPart, c: char): Option<FmtPart> {
    if c == 'b' then Some(p.(kind := Integer, base := 2))
    else if c == 'o' then Some(p.(kind := Integer, base := 8))
    else if c == 'd' then Some(p.(kind := Integer, base := 10))
    else if c == 'h' then Some(p.(kind := Integer, base := 16))
    else if c == 'H' then Some(p.(kind := Integer, base := 16, hexUpper := true))
    else if c == 'c' then Some(p.(kind := Text))
    else if c == 't' then Some(p.(kind := VlogTime))
    else if c == 'r' then Some(p.(kind := VlogTime, realtime := true))
    else None
  }

  function Justified(c: char): Option<Justify> {
    if c == '>' then Some(Right) else if c == '<' then Some(Left) else if c == '=' then Some(Numeric) else None
  }

  /** From the width to the closing brace. */
  function ReadWidth(fmt: string, i: nat, p: FmtPart, args: seq<SigBit>): (r: Option<Parsed>)
    requires i < |fmt|
    ensures r.Some? ==> i < r.value.next <= |fmt|
  {
    var (width, j) := ReadNumber(fmt, i, 0);
    if j + 1 >= |fmt| then None
    else
      match Typed(p.(width := width), fmt[j])
      case None => None
      case Some(q) => if q.kind.Integer? then ReadFlags(fmt, j + 1, q, args) else Closed(fmt, j + 1, q, args)
  }

  /** A substitution, from behind its opening brace. */
  function ReadPart(fmt: string, i: nat, args: seq<SigBit>): (r: Option<Parsed>)
    requires i <= |fmt|
    ensures r.Some? ==> i < r.value.next <= |fmt|
  {
    var (size, j) := ReadNumber(fmt, i, 0);
    if j + 1 >= |fmt| || fmt[j] != ':' || |args| < size then None
    else
      var p, rest := EMPTY.(sig := args[..size]), args[size..];
      if fmt[j + 1] == 'U' then Closed(fmt, j + 2, p.(kind := Unichar), rest)
      else if Justified(fmt[j + 1]).None? || j + 3 >= |fmt| then None
      else ReadWidth(fmt, j + 3, p.(justify := Justified(fmt[j + 1]).value, padding := fmt[j + 2]), rest)
  }

  /** The literal read so far, as a part. */
  function Flush(str: string): seq<FmtPart> {
    if str == "" then [] else [EMPTY.(str := str)]
  }

  /** The parts from i on, after the literal text str. */
  function Read(fmt: string, i: nat, args: seq<SigBit>, str: string): (r: Option<seq<FmtPart>>)
    requires i <= |fmt|
    decreases |fmt| - i
  {
    if i == |fmt| then Some(Flush(str))
    else if Doubled(fmt, i, '}') then Read(fmt, i + 2, args, str + "}")
    else if Doubled(fmt, i, '{') then Read(fmt, i + 2, args, str + "{")
    else if fmt[i] == '}' then None
    else if fmt[i] == '{' then
      match ReadPart(fmt, i + 1, args)
      case None => None
      case Some(p) =>
        var rest := Read(fmt, p.next, p.args, "");
        if rest.None? then None else Some(Flush(str) + [p.part] + rest.value)
    else Read(fmt, i + 1, args, str + [fmt[i]])
  }

  lemma {:induction false} AtConcat(fmt: string, i: nat, s: string, t: string)
    requires At(fmt, i, s + t)
    ensures At(fmt, i, s) && At(fmt, i + |s|, t)
  {
    var u := s + t;
    forall k | 0 <= k < |s| ensures s[k] == fmt[i + k] {
      assert u[k] == s[k];
    }
    forall k | 0 <= k < |t| ensures t[k] == fmt[i + |s| + k] {
      assert u[|s| + k] == t[k];
    }
  }

  lemma {:induction false} ReadsNumber(fmt: string, i: nat, s: string, n: nat)
    requires At(fmt, i, s) && (forall k | 0 <= k < |s| :: Digit(s[k])) && !Digit(Char(fmt, i + |s|))
    ensures ReadNumber(fmt, i, n) == (Number(n, s), i + |s|)
    decreases |s|
  {
    if s != "" {
      assert fmt[i] == s[0];
      assert s == [s[0]] + s[1..];
      AtConcat(fmt, i, [s[0]], s[1..]);
      ReadsNumber(fmt, i + 1, s[1..], 10 * n + DigitValue(s[0]));
      NumberFront(n, s);
    }
  }

  lemma {:induction false} ReadsDecimal(fmt: string, i: nat, n: nat)
    requires At(fmt, i, Decimal(n)) && !Digit(Char(fmt, i + |Decimal(n)|))
    ensures ReadNumber(fmt, i, 0) == (n, i + |Decimal(n)|)
  {
    ReadsNumber(fmt, i, Decimal(n), 0);
    DecimalNumber(n);
  }

  lemma {:induction false} AtSplit(fmt: string, i: nat, s: string, t: string, u: string) returns (next: nat)
    requires At(fmt, i, u) && u == s + t
    ensures At(fmt, i, s) && next == i + |s| && At(fmt, next, t) && i + |u| == next + |t|
  {
    AtConcat(fmt, i, s, t);
    next := i + |s|;
  }
}

/** Round trips, and the two methods. */
module Fmts {
  import opened Wrappers
  import opened FmtTexts
  import opened FmtGrammars

  // ------------------------------------------------------ round trips

  /** What a part says, without fields that do not matter to its kind. */
  function NormalPart(p: FmtPart): FmtPart {
    var q := EMPTY.(kind := p.kind, sig := p.sig, justify := p.justify, padding := PaddingChar(p), width := p.width);
    match p.kind
    case Integer => q.(base := p.base, signed' := p.signed', sign := p.sign, hexUpper := p.base == 16 && p.hexUpper,
                       showBase := p.showBase, group := p.group)
    case VlogTime => q.(realtime := p.realtime)
    case _ => q
  }

  /** Neighbouring literals joined and empty ones dropped; str is the literal before ps. */
  function Normal(ps: seq<FmtPart>, str: string): seq<FmtPart> {
    if ps == [] then Flush(str)
    else if ps[0].kind.Literal? then Normal(ps[1..], str + ps[0].str)
    else Flush(str) + [NormalPart(ps[0])] + Normal(ps[1..], "")
  }

  predicate HasUnichar(ps: seq<FmtPart>) {
    exists k :: 0 <= k < |ps| && ps[k].kind.Unichar?
  }

  /** How printing spells a part: always with its sign, and with a space where there is no padding. */
  function SpellingOf(p: FmtPart): (s: Spelling)
    requires p.kind in {Integer, Text, VlogTime}
    ensures s.IntegerSpelling? <==> p.kind.Integer?
  {
    var size, justify, padding, width := Decimal(|p.sig|), JustifyChar(p.justify), PaddingChar(p), WidthText(p);
    if p.kind.Integer? then IntegerSpelling(size, justify, padding, width, BaseChar(p), [SignChar(p.sign)], p.showBase, p.group, p.signed')
    else TextSpelling(size, justify, padding, width, KindText(p)[0])
  }

  lemma {:induction false} Grouped(size: string, justify: char, padding: char, w: string, kind: string, end: string)
    requires end == kind + "}"
    ensures size + ":" + [justify] + [padding] + w + kind + "}" == size + ([':', justify, padding] + (w + end))
  {
  }

  lemma {:induction false} EndingOf(p: FmtPart)
    requires p.kind in {Integer, Text, VlogTime}
    ensures Ending(SpellingOf(p)) == KindText(p) + "}"
  {
  }

  lemma {:induction false} SpellingIsGood(p: FmtPart)
    requires p.kind in {Integer, Text, VlogTime} && Legal(p)
    ensures var s := SpellingOf(p); Good(s) && Size(s) == |p.sig| && Number(0, s.width) == p.width
  {
    DecimalNumber(|p.sig|);
    DecimalNumber(p.width);
  }

  /** The spelling of a part means the part. */
  lemma {:induction false} SpellingMeans(p: FmtPart)
    requires p.kind in {Integer, Text, VlogTime} && Legal(p)
    ensures var s := SpellingOf(p); Good(s) && Size(s) == |p.sig| && Meaning(s, p.sig) == NormalPart(p)
  {
    SpellingIsGood(p);
    if p.kind.Integer? {
      IntegerMeans(p);
    } else {
      TextMeans(p);
    }
  }

  lemma {:induction false} IntegerMeans(p: FmtPart)
    requires p.kind.Integer? && Legal(p) && Good(SpellingOf(p)) && Number(0, WidthText(p)) == p.width
    ensures Meaning(SpellingOf(p), p.sig) == NormalPart(p)
  {
  }

  lemma {:induction false} TextMeans(p: FmtPart)
    requires p.kind in {Text, VlogTime} && Good(SpellingOf(p)) && Number(0, WidthText(p)) == p.width
    ensures Meaning(SpellingOf(p), p.sig) == NormalPart(p)
  {
  }

  lemma {:induction false} PrintedIsSpelled(p: FmtPart)
    requires p.kind in {Integer, Text, VlogTime}
    ensures Body(p) == Spelled(SpellingOf(p))
  {
    EndingOf(p);
    Grouped(Decimal(|p.sig|), JustifyChar(p.justify), PaddingChar(p), WidthText(p), KindText(p), Ending(SpellingOf(p)));
  }

  lemma {:induction false} SplitArgs(sig: seq<SigBit>, rest: seq<SigBit>)
    ensures (sig + rest)[..|sig|] == sig && (sig + rest)[|sig|..] == rest
  {
  }

  predicate BodyAt(fmt: string, i: nat, p: FmtPart, next: nat) {
    At(fmt, i, Body(p)) && next == i + |Body(p)|
  }

  lemma {:induction false} ReadsPart(fmt: string, i: nat, p: FmtPart, rest: seq<SigBit>, next: nat)
    requires p.kind in {Integer, Text, VlogTime} && Legal(p) && BodyAt(fmt, i, p, next)
    ensures ReadPart(fmt, i, p.sig + rest) == Some(Parsed(NormalPart(p), rest, next))
  {
    SpellingMeans(p);
    PrintedIsSpelled(p);
    ReadsSpelled(fmt, i, SpellingOf(p), p.sig, rest, next);
  }

  /** A spelling in front of the arguments it takes. */
  lemma {:induction false} ReadsSpelled(fmt: string, i: nat, s: Spelling, sig: seq<SigBit>, rest: seq<SigBit>, next: nat)
    requires Good(s) && Size(s) == |sig| && UpTo(fmt, i, Spelled(s), next)
    ensures i < next <= |fmt| && ReadPart(fmt, i, sig + rest) == Some(Parsed(Meaning(s, sig), rest, next))
  {
    SplitArgs(sig, rest);
    ReadsSpelling(fmt, i, s, sig + rest, next);
  }

  lemma {:induction false} ReadsSubstitution(fmt: string, i: nat, next: nat, p: FmtPart, rest: seq<SigBit>, str: string)
    requires p.kind in {Integer, Text, VlogTime} && Legal(p) && PrintedAt(fmt, i, p, next)
    ensures next <= |fmt| && Read(fmt, i, p.sig + rest, str) == Continued(Flush(str) + [NormalPart(p)], Read(fmt, next, rest, ""))
  {
    BraceAt(fmt, i, next, p);
    ReadsPart(fmt, i + 1, p, rest, next);
    ReadsBrace(fmt, i, Parsed(NormalPart(p), rest, next), p.sig + rest, str);
  }

  lemma {:induction false} BraceAt(fmt: string, i: nat, next: nat, p: FmtPart)
    requires p.kind in {Integer, Text, VlogTime} && Legal(p) && PrintedAt(fmt, i, p, next)
    ensures i + 1 < |fmt| && fmt[i] == '{' && fmt[i + 1] != '{' && BodyAt(fmt, i + 1, p, next)
  {
    AtConcat(fmt, i, "{", Body(p));
    assert fmt[i] == "{"[0];
    SpellingMeans(p);
    PrintedIsSpelled(p);
    SpelledFront(fmt, i + 1, SpellingOf(p));
  }

  /** A substitution in its braces, whatever comes before and after it. */
  lemma {:induction false} ReadsBraced(fmt: string, i: nat, s: Spelling, sig: seq<SigBit>, rest: seq<SigBit>, str: string, next: nat)
    requires Good(s) && Size(s) == |sig| && UpTo(fmt, i, "{" + Spelled(s), next)
    ensures next <= |fmt| && Read(fmt, i, sig + rest, str) == Continued(Flush(str) + [Meaning(s, sig)], Read(fmt, next, rest, ""))
  {
    AtConcat(fmt, i, "{", Spelled(s));
    assert fmt[i] == "{"[0];
    SpelledFront(fmt, i + 1, s);
    ReadsSpelled(fmt, i + 1, s, sig, rest, next);
    ReadsBrace(fmt, i, Parsed(Meaning(s, sig), rest, next), sig + rest, str);
  }

  lemma {:induction false} SameSplit(front: string, options: string, sign: char, head: string, tail: string)
    requires head + [sign] + tail == front + ([sign] + options) && |tail| == |options|
    ensures head == front && tail == options
  {
    var t := head + [sign] + tail;
    assert head == t[..|head|] && tail == t[|head| + 1..];
    assert front == t[..|front|] && options == t[|front| + 1..];
  }

  lemma {:induction false} AroundSpelledSign(s: Spelling, sign: char, head: string, tail: string)
    requires s.IntegerSpelling? && s.sign == [sign] && |tail| == |Options(s.showBase, s.group, s.signed')|
    requires "{" + Spelled(s) == head + [sign] + tail
    ensures head + tail == "{" + Spelled(s.(sign := ""))
  {
    var place, options := [':', s.justify, s.padding], Options(s.showBase, s.group, s.signed');
    var front := FrontOf(s.size, place, s.width, s.kind, [sign] + options);
    var front' := FrontOf(s.size, place, s.width, s.kind, options);
    SameSplit(front, options, sign, head, tail);
    assert "" + options == options;
  }

  lemma {:induction false} FrontOf(size: string, place: string, width: string, kind: char, flags: string) returns (front: string)
    ensures front == "{" + (size + (place + (width + [kind]))) && "{" + (size + (place + (width + ([kind] + flags)))) == front + flags
  {
    front := "{" + (size + (place + (width + [kind])));
  }

  /**
   * The '-' of an integer may be left out: the rest of what is printed still reads as the part, with sign Minus, and
   * takes exactly its arguments, wherever it stands.
   */
  lemma {:induction false} SignMayBeLeftOut(p: FmtPart, head: string, tail: string, fmt: string, i: nat, rest: seq<SigBit>, str: string)
    requires p.kind.Integer? && Legal(p) && p.sign.Minus? && Printed(p) == head + "-" + tail
    requires |tail| == (if p.showBase then 1 else 0) + (if p.group then 1 else 0) + 2
    requires At(fmt, i, head + tail)
    ensures i + |head + tail| <= |fmt| && NormalPart(p).sign.Minus?
    ensures Read(fmt, i, p.sig + rest, str) == Continued(Flush(str) + [NormalPart(p)], Read(fmt, i + |head + tail|, rest, ""))
  {
    var s := LeaveOutSign(p, head, tail);
    ReadsBraced(fmt, i, s, p.sig, rest, str, i + |head + tail|);
  }

  lemma {:induction false} LeaveOutSign(p: FmtPart, head: string, tail: string) returns (s: Spelling)
    requires p.kind.Integer? && Legal(p) && p.sign.Minus? && Printed(p) == head + "-" + tail
    requires |tail| == (if p.showBase then 1 else 0) + (if p.group then 1 else 0) + 2
    ensures Good(s) && Size(s) == |p.sig| && Meaning(s, p.sig) == NormalPart(p) && head + tail == "{" + Spelled(s)
  {
    PrintedIsSpelled(p);
    AroundSpelledSign(SpellingOf(p), '-', head, tail);
    s := SpellingOf(p).(sign := "");
    MeansWithoutSign(p, SpellingOf(p));
  }

  lemma {:induction false} MeansWithoutSign(p: FmtPart, s: Spelling)
    requires p.kind.Integer? && Legal(p) && p.sign.Minus? && s == SpellingOf(p)
    ensures Good(s.(sign := "")) && Size(s.(sign := "")) == |p.sig| && Meaning(s.(sign := ""), p.sig) == NormalPart(p)
  {
    SpellingMeans(p);
  }

  /** The form with a size for a UNICHAR part, which is never printed, reads as such a part of so many arguments. */
  lemma {:induction false} ReadsSizedUnichar(fmt: string, i: nat, sig: seq<SigBit>, rest: seq<SigBit>, str: string)
    requires At(fmt, i, "{" + (Decimal(|sig|) + ":U}"))
    ensures var next := i + |Decimal(|sig|)| + 4;
            && next <= |fmt|
            && Read(fmt, i, sig + rest, str) == Continued(Flush(str) + [EMPTY.(kind := Unichar, sig := sig)], Read(fmt, next, rest, ""))
  {
    DecimalNumber(|sig|);
    ReadsBraced(fmt, i, UnicharSpelling(Decimal(|sig|)), sig, rest, str, i + |Decimal(|sig|)| + 4);
  }

  /** The first example of the documentation: eight bits in upright hexadecimal digits, without a plus. */
  lemma {:induction false} DocumentedExample(sig: seq<SigBit>)
    requires |sig| == 8
    ensures Read("{8:>02hu}", 0, sig, "")
         == Some([EMPTY.(kind := Integer, sig := sig, justify := Right, padding := '0', width := 2, base := 16, sign := Minus)])
  {
    var s := ExampleSpelling(sig);
    assert sig + [] == sig;
    ReadsBraced("{8:>02hu}", 0, s, sig, [], "", 9);
    LastPart("{8:>02hu}", Meaning(s, sig));
  }

  lemma {:induction false} LastPart(fmt: string, p: FmtPart)
    ensures Continued(Flush("") + [p], Read(fmt, |fmt|, [], "")) == Some([p])
  {
    assert Flush("") + [p] + [] == [p];
  }

  lemma {:induction false} ExampleSpelling(sig: seq<SigBit>) returns (s: Spelling)
    ensures Good(s) && Size(s) == 8 && "{" + Spelled(s) == "{8:>02hu}"
    ensures Meaning(s, sig) == EMPTY.(kind := Integer, sig := sig, justify := Right, padding := '0', width := 2, base := 16, sign := Minus)
  {
    s := IntegerSpelling("8", '>', '0', "2", 'h', "", false, false, false);
    OneDigit("8");
    OneDigit("2");
    ExampleText("8", "2");
  }

  lemma {:induction false} ExampleText(size: string, width: string)
    requires size == "8" && width == "2"
    ensures "{" + (size + ([':', '>', '0'] + (width + (['h'] + ("" + ("" + "" + "u}")))))) == "{8:>02hu}"
  {
  }

  lemma {:induction false} OneDigit(s: string)
    requires |s| == 1 && Digit(s[0])
    ensures Digits(s) && Number(0, s) == DigitValue(s[0])
  {
    assert s[..0] == "" && Number(0, "") == 0;
  }

  /** Text whose braces are doubled reads as itself. */
  lemma {:induction false} ReadsLiteral(fmt: string, i: nat, next: nat, s: string, args: seq<SigBit>, str: string)
    requires At(fmt, i, Escaped(s)) && next == i + |Escaped(s)|
    ensures Read(fmt, i, args, str) == Read(fmt, next, args, str + s)
    decreases |s|
  {
    if s == "" {
      assert str + s == str;
    } else {
      var c, rest := s[0], s[1..];
      var j := AtSplit(fmt, i, Escape(c), Escaped(rest), Escaped(s));
      ReadsPlain(fmt, i, c, args, str, j);
      ReadsLiteral(fmt, j, next, rest, args, str + [c]);
      assert str + s == str + [c] + rest;
    }
  }

  /** A UNICHAR part has no size, so it does not read back. */
  lemma {:induction false} RejectsUnichar(fmt: string, i: nat, args: seq<SigBit>, str: string)
    requires At(fmt, i, "{U}")
    ensures Read(fmt, i, args, str) == None
  {
    var t := "{U}";
    assert fmt[i] == t[0] && fmt[i + 1] == t[1];
  }

  lemma {:induction false} UnicharFront(ps: seq<FmtPart>)
    requires ps != []
    ensures HasUnichar(ps) <==> ps[0].kind.Unichar? || HasUnichar(ps[1..])
  {
    if k :| 0 <= k < |ps[1..]| && ps[1..][k].kind.Unichar? {
      assert ps[k + 1].kind.Unichar?;
    }
    if k :| 0 <= k < |ps| && ps[k].kind.Unichar? && k > 0 {
      assert ps[1..][k - 1].kind.Unichar?;
    }
  }

  /** What reading gives for a list of parts behind the literal str. */
  function Expected(ps: seq<FmtPart>, str: string): Option<seq<FmtPart>> {
    if HasUnichar(ps) then None else Some(Normal(ps, str))
  }

  predicate PrintedAt(fmt: string, i: nat, p: FmtPart, next: nat) {
    At(fmt, i, Printed(p)) && next == i + |Printed(p)|
  }

  lemma {:induction false} ReadsFirstLiteral(fmt: string, i: nat, next: nat, p: FmtPart, rest: seq<FmtPart>, str: string)
    requires p.kind.Literal? && PrintedAt(fmt, i, p, next) && Read(fmt, next, Args(rest), str + p.str) == Expected(rest, str + p.str)
    ensures Read(fmt, i, Args([p] + rest), str) == Expected([p] + rest, str)
  {
    FirstOf(p, rest, str);
    ReadsLiteral(fmt, i, next, p.str, Args(rest), str);
  }

  lemma {:induction false} ReadsFirstUnichar(fmt: string, i: nat, next: nat, p: FmtPart, rest: seq<FmtPart>, str: string)
    requires p.kind.Unichar? && PrintedAt(fmt, i, p, next)
    ensures Read(fmt, i, Args([p] + rest), str) == Expected([p] + rest, str)
  {
    FirstOf(p, rest, str);
    RejectsUnichar(fmt, i, Args([p] + rest), str);
  }

  lemma {:induction false} ReadsFirstSubstitution(fmt: string, i: nat, next: nat, p: FmtPart, rest: seq<FmtPart>, str: string)
    requires p.kind in {Integer, Text, VlogTime} && Legal(p) && PrintedAt(fmt, i, p, next)
    requires Read(fmt, next, Args(rest), "") == Expected(rest, "")
    ensures Read(fmt, i, Args([p] + rest), str) == Expected([p] + rest, str)
  {
    FirstOf(p, rest, str);
    ReadsSubstitution(fmt, i, next, p, Args(rest), str);
  }

  lemma {:induction false} FirstOf(p: FmtPart, rest: seq<FmtPart>, str: string)
    ensures var ps := [p] + rest;
            && Args(ps) == (if p.kind in {Literal, Unichar} then Args(rest) else p.sig + Args(rest))
            && (p.kind.Literal? ==> Expected(ps, str) == Expected(rest, str + p.str))
            && (p.kind.Unichar? ==> Expected(ps, str) == None)
            && (p.kind !in {Literal, Unichar} ==> Expected(ps, str) == Continued(Flush(str) + [NormalPart(p)], Expected(rest, "")))
  {
    var ps := [p] + rest;
    assert ps[0] == p && ps[1..] == rest;
    UnicharFront(ps);
  }

  /** What was printed reads back, whatever the literals, padding and widths; unless it has a UNICHAR. */
  lemma {:induction false} ReadsPrinted(fmt: string, i: nat, ps: seq<FmtPart>, str: string)
    requires AllLegal(ps) && At(fmt, i, PrintedAll(ps)) && i + |PrintedAll(ps)| == |fmt|
    ensures Read(fmt, i, Args(ps), str) == Expected(ps, str)
    decreases |ps|
  {
    if ps == [] {
      ReadsEnd(fmt, str);
    } else {
      var p, rest := ps[0], ps[1..];
      assert ps == [p] + rest;
      var next := PrintedFront(fmt, i, p, rest);
      ReadsPrinted(fmt, next, rest, Before(p, str));
      assert Legal(p);
      ReadsFirst(fmt, i, next, p, rest, str);
    }
  }

  /** The literal that the parts after p go on. */
  function Before(p: FmtPart, str: string): string {
    if p.kind.Literal? then str + p.str else ""
  }

  lemma {:induction false} ReadsEnd(fmt: string, str: string)
    ensures Read(fmt, |fmt|, Args([]), str) == Expected([], str)
  {
  }

  lemma {:induction false} ReadsFirst(fmt: string, i: nat, next: nat, p: FmtPart, rest: seq<FmtPart>, str: string)
    requires Legal(p) && PrintedAt(fmt, i, p, next) && Read(fmt, next, Args(rest), Before(p, str)) == Expected(rest, Before(p, str))
    ensures Read(fmt, i, Args([p] + rest), str) == Expected([p] + rest, str)
  {
    if p.kind.Literal? {
      ReadsFirstLiteral(fmt, i, next, p, rest, str);
    } else if p.kind.Unichar? {
      ReadsFirstUnichar(fmt, i, next, p, rest, str);
    } else {
      ReadsFirstSubstitution(fmt, i, next, p, rest, str);
    }
  }

  lemma {:induction false} PrintedFront(fmt: string, i: nat, p: FmtPart, rest: seq<FmtPart>) returns (next: nat)
    requires At(fmt, i, PrintedAll([p] + rest))
    ensures PrintedAt(fmt, i, p, next) && At(fmt, next, PrintedAll(rest))
    ensures i + |PrintedAll([p] + rest)| == next + |PrintedAll(rest)|
  {
    var ps := [p] + rest;
    assert ps[0] == p && ps[1..] == rest;
    next := AtSplit(fmt, i, Printed(p), PrintedAll(rest), PrintedAll(ps));
  }

  /** `parse_rtlil` after `emit_rtlil`, on the parts of a whole format. */
  lemma {:induction false} RoundTrip(ps: seq<FmtPart>)
    requires AllLegal(ps)
    ensures Read(PrintedAll(ps), 0, Args(ps), "") == Expected(ps, "")
  {
    ReadsPrinted(PrintedAll(ps), 0, ps, "");
  }

  // ------------------------------------------------------ what reading makes

  /** A part that printing and reading leaves as it is. */
  predicate IsNormalPart(p: FmtPart) {
    if p.kind.Literal? then p == EMPTY.(str := p.str) && p.str != "" else p == NormalPart(p)
  }

  predicate IsNormal(ps: seq<FmtPart>) {
    && (forall k | 0 <= k < |ps| :: IsNormalPart(ps[k]))
    && (forall k | 0 < k < |ps| :: !(ps[k - 1].kind.Literal? && ps[k].kind.Literal?))
  }

  /** The normal lists of parts are those that come back unchanged. */
  lemma {:induction false} NormalIsFixed(ps: seq<FmtPart>)
    requires IsNormal(ps)
    ensures Normal(ps, "") == ps
    decreases |ps|
  {
    if ps != [] {
      var p, rest := ps[0], ps[1..];
      assert IsNormalPart(p);
      assert forall k | 0 <= k < |rest| :: rest[k] == ps[k + 1];
      if p.kind.Literal? {
        assert "" + p.str == p.str;
        if rest == [] {
          assert ps == [p];
        } else {
          assert !rest[0].kind.Literal? && IsNormalPart(rest[0]);
          var more := rest[1..];
          assert forall k | 0 <= k < |more| :: more[k] == ps[k + 2];
          NormalIsFixed(more);
          assert ps == [p] + [rest[0]] + more;
        }
      } else {
        NormalIsFixed(rest);
      }
    }
  }

  lemma {:induction false} NormalIsNormal(ps: seq<FmtPart>, str: string)
    ensures IsNormal(Normal(ps, str))
    decreases |ps|
  {
    if ps != [] {
      if ps[0].kind.Literal? {
        NormalIsNormal(ps[1..], str + ps[0].str);
      } else {
        NormalIsNormal(ps[1..], "");
        var q := NormalPart(ps[0]);
        assert IsNormalPart(q) && !q.kind.Literal?;
      }
    }
  }

  /** Substitutions that are read are normal, except that they may be UNICHAR or padded with NUL. */
  predicate IsRead(p: FmtPart) {
    IsNormalPart(p) || p.kind.Unichar? || (!p.kind.Literal? && p.padding == NUL)
  }

  /** The fields that only integers have are at their initial values. */
  predicate Unflagged(p: FmtPart) {
    p.str == "" && p.base == 10 && !p.signed' && p.sign.Minus? && !p.hexUpper && !p.showBase && !p.group && !p.realtime
  }

  /** An integer all of whose fields can be printed. */
  predicate Regular(p: FmtPart) {
    p.kind.Integer? && p.str == "" && !p.realtime && p.base in {2, 8, 10, 16} && (p.hexUpper ==> p.base == 16)
  }

  lemma {:induction false} RegularIsRead(p: FmtPart)
    requires Regular(p)
    ensures IsRead(p)
  {
  }

  lemma {:induction false} ReadFlagsIsNormal(fmt: string, i: nat, p: FmtPart, args: seq<SigBit>)
    requires i < |fmt| && ReadFlags(fmt, i, p, args).Some? && Regular(p)
    ensures IsRead(ReadFlags(fmt, i, p, args).value.part) && ReadFlags(fmt, i, p, args).value.part.kind.Integer?
  {
    var (p1, i1) := ReadSign(fmt, i, p);
    assert Regular(p1);
    var q := ReadOptions(fmt, i1, p1, args).value.part;
    assert Regular(q);
    RegularIsRead(q);
  }

  lemma {:induction false} ReadWidthIsNormal(fmt: string, i: nat, p: FmtPart, args: seq<SigBit>)
    requires i < |fmt| && ReadWidth(fmt, i, p, args).Some? && Unflagged(p)
    ensures var q := ReadWidth(fmt, i, p, args).value.part; IsRead(q) && !q.kind.Literal?
  {
    var (width, j) := ReadNumber(fmt, i, 0);
    var q := Typed(p.(width := width), fmt[j]).value;
    if q.kind.Integer? {
      ReadFlagsIsNormal(fmt, j + 1, q, args);
    }
  }

  lemma {:induction false} ReadUnichar(fmt: string, i: nat, size: nat, j: nat, args: seq<SigBit>)
    requires i <= |fmt| && ReadNumber(fmt, i, 0) == (size, j) && j + 1 < |fmt| && fmt[j + 1] == 'U' && ReadPart(fmt, i, args).Some?
    ensures ReadPart(fmt, i, args).value.part.kind.Unichar?
  {
  }

  lemma {:induction false} ReadPartIsNormal(fmt: string, i: nat, args: seq<SigBit>)
    requires i <= |fmt| && ReadPart(fmt, i, args).Some?
    ensures var p := ReadPart(fmt, i, args).value.part; IsRead(p) && !p.kind.Literal?
  {
    var (size, j) := ReadNumber(fmt, i, 0);
    if fmt[j + 1] == 'U' {
      ReadUnichar(fmt, i, size, j, args);
    } else {
      var justify := Justified(fmt[j + 1]).value;
      ReadPartHead(fmt, i, size, j, justify, args);
      ReadWidthIsNormal(fmt, j + 3, EMPTY.(sig := args[..size], justify := justify, padding := fmt[j + 2]), args[size..]);
    }
  }

  lemma {:induction false} ReadIsNormal(fmt: string, i: nat, args: seq<SigBit>, str: string)
    requires i <= |fmt| && Read(fmt, i, args, str).Some?
    ensures var ps := Read(fmt, i, args, str).value;
            && (forall k | 0 <= k < |ps| :: IsRead(ps[k]))
            && (forall k | 0 < k < |ps| :: !(ps[k - 1].kind.Literal? && ps[k].kind.Literal?))
    decreases |fmt| - i
  {
    if i == |fmt| {
    } else if Doubled(fmt, i, '}') {
      ReadIsNormal(fmt, i + 2, args, str + "}");
    } else if Doubled(fmt, i, '{') {
      ReadIsNormal(fmt, i + 2, args, str + "{");
    } else if fmt[i] == '{' {
      var p := ReadPart(fmt, i + 1, args).value;
      ReadPartIsNormal(fmt, i + 1, args);
      ReadIsNormal(fmt, p.next, p.args, "");
    } else {
      ReadIsNormal(fmt, i + 1, args, str + [fmt[i]]);
    }
  }

  /** What was read once prints and reads back as itself. */
  lemma {:induction false} ReadPrintRead(fmt: string, args: seq<SigBit>)
    requires Read(fmt, 0, args, "").Some?
    ensures var ps := Read(fmt, 0, args, "").value;
            AllLegal(ps) && !HasUnichar(ps) && (forall k | 0 <= k < |ps| :: ps[k].kind.Literal? || ps[k].padding != NUL)
            ==> Read(PrintedAll(ps), 0, Args(ps), "") == Some(ps)
  {
    var ps := Read(fmt, 0, args, "").value;
    if AllLegal(ps) && !HasUnichar(ps) && forall k | 0 <= k < |ps| :: ps[k].kind.Literal? || ps[k].padding != NUL {
      ReadIsNormal(fmt, 0, args, "");
      assert forall k | 0 <= k < |ps| :: IsRead(ps[k]);
      NormalIsFixed(ps);
      RoundTrip(ps);
    }
  }

  // ------------------------------------------------------ the two methods

  lemma {:induction false} Associate<T>(a: seq<T>, b: seq<T>, c: seq<T>)
    ensures a + b + c == a + (b + c)
  {
  }

  lemma {:induction false} AppendContinued(parts: seq<FmtPart>, str: string, p: FmtPart, rest: Option<seq<FmtPart>>)
    ensures Continued(parts, Continued(Flush(str) + [p], rest)) == Continued((if str == "" then parts else parts + [EMPTY.(str := str)]) + [p], rest)
  {
    if rest.Some? {
      var flushed := if str == "" then parts else parts + [EMPTY.(str := str)];
      assert flushed == parts + Flush(str);
      assert flushed + [p] + rest.value == parts + (Flush(str) + [p] + rest.value);
    }
  }

  class Fmt {
    var parts: seq<FmtPart>

    constructor (parts: seq<FmtPart>)
      ensures this.parts == parts
    {
      this.parts := parts;
    }

    /** `emit_rtlil`: the FORMAT and ARGS of the cell. */
    method EmitRtlil() returns (fmt: string, args: seq<SigBit>)
      requires AllLegal(parts)
      ensures fmt == PrintedAll(parts) && args == Args(parts)
    {
      fmt, args := "", [];
      for n := 0 to |parts|
        invariant fmt + PrintedAll(parts[n..]) == PrintedAll(parts)
        invariant args + Args(parts[n..]) == Args(parts)
      {
        var part := parts[n];
        ghost var tail := parts[n + 1..];
        assert parts[n..][0] == part && parts[n..][1..] == tail;
        Associate(fmt, Printed(part), PrintedAll(tail));
        Associate(args, Taken(part), Args(tail));
        var text, sig := EmitPart(part);
        fmt := fmt + text;
        args := args + sig;
      }
    }

    method EmitPart(part: FmtPart) returns (text: string, sig: seq<SigBit>)
      requires Legal(part)
      ensures text == Printed(part) && sig == Taken(part)
    {
      match part.kind
      case Literal =>
        text := EmitLiteral(part.str);
        sig := [];
      case Unichar =>
        text := "{U}";
        sig := [];
      case _ =>
        sig := part.sig;
        text := EmitBody(part);
        text := "{" + text;
    }

    method EmitLiteral(str: string) returns (fmt: string)
      ensures fmt == Escaped(str)
    {
      fmt := "";
      for k := 0 to |str|
        invariant fmt + Escaped(str[k..]) == Escaped(str)
      {
        var c := str[k];
        assert str[k..][0] == c && str[k..][1..] == str[k + 1..];
        Associate(fmt, Escape(c), Escaped(str[k + 1..]));
        if c == '{' {
          fmt := fmt + "{{";
        } else if c == '}' {
          fmt := fmt + "}}";
        } else {
          fmt := fmt + [c];
        }
      }
    }

    method EmitBody(part: FmtPart) returns (text: string)
      requires part.kind in {Integer, Text, VlogTime} && Legal(part)
      ensures text == Body(part) == Spelled(SpellingOf(part))
      ensures var k := |Decimal(|part.sig|)|;
              k + 2 < |text| && text[k + 2] == if part.padding != NUL then part.padding else ' '
    {
      PrintedIsSpelled(part);
      text := Decimal(|part.sig|);
      text := text + ":";
      text := text + [JustifyChar(part.justify)];
      text := text + [if part.padding != NUL then part.padding else ' '];
      if part.width > 0 {
        text := text + Decimal(part.width);
      } else {
        assert text + "" == text;
      }
      if part.kind.Integer? {
        var flags := EmitFlags(part);
        text := text + ([BaseChar(part)] + flags);
      } else if part.kind.Text? {
        text := text + "c";
      } else if part.realtime {
        text := text + "r";
      } else {
        text := text + "t";
      }
      text := text + "}";
    }

    method EmitFlags(part: FmtPart) returns (text: string)
      ensures text == Flags(part)
    {
      text := [SignChar(part.sign)];
      text := text + (if part.showBase then "#" else "");
      text := text + (if part.group then "_" else "");
      text := text + [if part.signed' then 's' else 'u'];
    }

    /** `parse_rtlil`; not ok where it fails an assertion. */
    method ParseRtlil(fmt: string, args: seq<SigBit>) returns (ok: bool)
      modifies this
      ensures ok <==> Read(fmt, 0, args, "").Some?
      ensures ok ==> parts == Read(fmt, 0, args, "").value
      ensures ok <==> exists items :: Writes(items, fmt, args)
      ensures forall items | Writes(items, fmt, args) :: parts == Denoted(items, args, "")
    {
      ok := ParseParts(fmt, args);
      ReadExactly(fmt, args);
    }

    method ParseParts(fmt: string, args: seq<SigBit>) returns (ok: bool)
      modifies this
      ensures ok <==> Read(fmt, 0, args, "").Some?
      ensures ok ==> parts == Read(fmt, 0, args, "").value
    {
      parts := [];
      var i, str, rest := 0, "", args;
      assert forall ps: seq<FmtPart> :: [] + ps == ps;
      while i < |fmt|
        invariant i <= |fmt|
        invariant Read(fmt, 0, args, "") == Continued(parts, Read(fmt, i, rest, str))
        decreases |fmt| - i
      {
        if Doubled(fmt, i, '}') {
          str := str + "}";
          i := i + 2;
        } else if Doubled(fmt, i, '{') {
          str := str + "{";
          i := i + 2;
        } else if fmt[i] == '}' {
          return false;
        } else if fmt[i] == '{' {
          var part := ParseSubstitution(fmt, i + 1, rest);
          if part.None? {
            return false;
          }
          ghost var before, str0 := parts, str;
          if str != "" {
            parts := parts + [EMPTY.(str := str)];
            str := "";
          }
          parts := parts + [part.value.part];
          AppendContinued(before, str0, part.value.part, Read(fmt, part.value.next, part.value.args, ""));
          i, rest := part.value.next, part.value.args;
        } else {
          str := str + [fmt[i]];
          i := i + 1;
        }
      }
      if str != "" {
        parts := parts + [EMPTY.(str := str)];
      }
      ok := true;
    }

    method ParseNumber(fmt: string, i: nat) returns (n: nat, j: nat)
      requires i <= |fmt|
      ensures (n, j) == ReadNumber(fmt, i, 0)
    {
      n, j := 0, i;
      while j < |fmt| && Digit(fmt[j])
        invariant i <= j <= |fmt| && ReadNumber(fmt, i, 0) == ReadNumber(fmt, j, n)
      {
        n := n * 10;
        n := n + DigitValue(fmt[j]);
        j := j + 1;
      }
    }

    /** From behind the opening brace to behind the closing one. */
    method ParseSubstitution(fmt: string, start: nat, args: seq<SigBit>) returns (r: Option<Parsed>)
      requires start <= |fmt|
      ensures r == ReadPart(fmt, start, args)
      ensures r.Some? <==> exists s :: SpelledAt(fmt, start, s, |args|)
      ensures forall s | SpelledAt(fmt, start, s, |args|) ::
                r == Some(Parsed(Meaning(s, args[..Size(s)]), args[Size(s)..], start + |Spelled(s)|))
    {
      r := ParsePart(fmt, start, args);
      ReadsExactly(fmt, start, args);
    }

    method ParsePart(fmt: string, start: nat, args: seq<SigBit>) returns (r: Option<Parsed>)
      requires start <= |fmt|
      ensures r == ReadPart(fmt, start, args)
    {
      var size, i := ParseNumber(fmt, start);
      if i == |fmt| || fmt[i] != ':' || i + 1 == |fmt| || |args| < size {
        return None;
      }
      i := i + 1;
      var part, rest := EMPTY.(sig := args[..size]), args[size..];
      if fmt[i] == 'U' {
        return Closed(fmt, i + 1, part.(kind := Unichar), rest);
      }
      if fmt[i] == '>' {
        part := part.(justify := Right);
      } else if fmt[i] == '<' {
        part := part.(justify := Left);
      } else if fmt[i] == '=' {
        part := part.(justify := Numeric);
      } else {
        return None;
      }
      if i + 1 == |fmt| || i + 2 == |fmt| {
        return None;
      }
      r := ParseType(fmt, i + 2, part.(padding := fmt[i + 1]), rest);
    }

    method ParseType(fmt: string, start: nat, p: FmtPart, args: seq<SigBit>) returns (r: Option<Parsed>)
      requires start < |fmt|
      ensures r == ReadWidth(fmt, start, p, args)
    {
      var width, i := ParseNumber(fmt, start);
      if i == |fmt| || i + 1 == |fmt| {
        return None;
      }
      var typed := Typed(p.(width := width), fmt[i]);
      if typed.None? {
        return None;
      }
      if typed.value.kind.Integer? {
        r := ParseFlags(fmt, i + 1, typed.value, args);
      } else {
        r := Closed(fmt, i + 1, typed.value, args);
      }
    }

    method ParseFlags(fmt: string, start: nat, p: FmtPart, args: seq<SigBit>) returns (r: Option<Parsed>)
      requires start < |fmt|
      ensures r == ReadFlags(fmt, start, p, args)
      ensures fmt[start] !in {'-', '+', ' '} ==> r == ReadOptions(fmt, start, p, args)
      ensures fmt[start] in {'-', '+', ' '} ==>
                var sign := if fmt[start] == '-' then Minus else if fmt[start] == '+' then PlusMinus else SpaceMinus;
                r == if start + 1 == |fmt| then None else ReadOptions(fmt, start + 1, p.(sign := sign), args)
    {
      var i, part := start, p;
      if fmt[i] == '-' {
        part := part.(sign := Minus);
        i := i + 1;
      } else if fmt[i] == '+' {
        part := part.(sign := PlusMinus);
        i := i + 1;
      } else if fmt[i] == ' ' {
        part := part.(sign := SpaceMinus);
        i := i + 1;
      }
      assert ReadSign(fmt, start, p) == (part, i);
      if i == |fmt| {
        return None;
      }
      r := ParseOptions(fmt, i, part, args);
    }

    method ParseOptions(fmt: string, start: nat, p: FmtPart, args: seq<SigBit>) returns (r: Option<Parsed>)
      requires start < |fmt|
      ensures r == ReadOptions(fmt, start, p, args)
    {
      var i, part := start, p;
      if Char(fmt, i) == '#' {
        part := part.(showBase := true);
        i := i + 1;
      }
      if Char(fmt, i) == '_' {
        part := part.(group := true);
        i := i + 1;
      }
      if Char(fmt, i) == 'u' {
        part := part.(signed' := false);
      } else if Char(fmt, i) == 's' {
        part := part.(signed' := true);
      } else {
        return None;
      }
      if i + 1 == |fmt| {
        return None;
      }
      r := Closed(fmt, i + 1, part, args);
    }
  }
}
