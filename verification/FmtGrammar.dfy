/**
 * The texts that `parse_rtlil` accepts, written out, and what each of them
 * means; the reading functions accept exactly these.
 */
module FmtGrammars {
  import opened Wrappers
  import opened FmtTexts

  /** The pieces of a substitution, behind its opening brace. */
  datatype Spelling =
    | UnicharSpelling(size: string)
    | TextSpelling(size: string, justify: char, padding: char, width: string, kind: char)
    | IntegerSpelling(size: string, justify: char, padding: char, width: string, kind: char,
                      sign: string, showBase: bool, group: bool, signed': bool)

  predicate Digits(s: string) {
    forall k | 0 <= k < |s| :: Digit(s[k])
  }

  predicate Good(s: Spelling) {
    && Digits(s.size)
    && (!s.UnicharSpelling? ==> s.justify in {'>', '<', '='} && Digits(s.width))
    && (s.TextSpelling? ==> s.kind in {'c', 't', 'r'})
    && (s.IntegerSpelling? ==> s.kind in {'b', 'o', 'd', 'h', 'H'} && s.sign in {"", "-", "+", " "})
  }

  function Options(showBase: bool, group: bool, signed': bool): string {
    (if showBase then "#" else "") + (if group then "_" else "") + (if signed' then "s}" else "u}")
  }

  /** From the type character on. */
  function Ending(s: Spelling): string {
    match s
    case UnicharSpelling(_) => ":U}"
    case TextSpelling(_, _, _, _, kind) => [kind, '}']
    case IntegerSpelling(_, _, _, _, kind, sign, showBase, group, signed') => [kind] + (sign + Options(showBase, group, signed'))
  }

  function Spelled(s: Spelling): string {
    if s.UnicharSpelling? then s.size + Ending(s) else s.size + ([':', s.justify, s.padding] + (s.width + Ending(s)))
  }

  function Size(s: Spelling): nat
    requires Good(s)
  {
    Number(0, s.size)
  }

  /** What the substitution means; without a sign character, only negative numbers get a sign. */
  function Meaning(s: Spelling, sig: seq<SigBit>): FmtPart
    requires Good(s)
  {
    match s
    case UnicharSpelling(_) =>
      FmtPart(Unichar, "", sig, Right, NUL, 0, 10, false, Minus, false, false, false, false)
    case TextSpelling(_, j, padding, width, kind) =>
      FmtPart(if kind == 'c' then Text else VlogTime, "", sig, if j == '>' then Right else if j == '<' then Left else Numeric,
              padding, Number(0, width), 10, false, Minus, false, false, false, kind == 'r')
    case IntegerSpelling(_, j, padding, width, kind, sign, showBase, group, signed') =>
      FmtPart(Integer, "", sig, if j == '>' then Right else if j == '<' then Left else Numeric, padding, Number(0, width),
              if kind == 'b' then 2 else if kind == 'o' then 8 else if kind == 'd' then 10 else 16, signed',
              if sign == "+" then PlusMinus else if sign == " " then SpaceMinus else Minus, kind == 'H', showBase, group, false)
  }

  // ------------------------------------------------ spelled texts are read

  /** t is at i, and ends at next. */
  predicate UpTo(fmt: string, i: nat, t: string, next: nat) {
    At(fmt, i, t) && next == i + |t|
  }

  lemma {:induction false} ReadsOptions(fmt: string, i: nat, p: FmtPart, args: seq<SigBit>, showBase: bool, group: bool, signed': bool, next: nat)
    requires UpTo(fmt, i, Options(showBase, group, signed'), next) && !p.showBase && !p.group
    ensures ReadOptions(fmt, i, p, args) == Some(Parsed(p.(showBase := showBase, group := group, signed' := signed'), args, next))
    ensures i < |fmt| && fmt[i] in {'#', '_', 'u', 's'}
  {
    var t := Options(showBase, group, signed');
    var n := |t|;
    assert fmt[i] == t[0] && fmt[i + 1] == t[1];
    assert fmt[i + n - 2] == t[n - 2] && fmt[i + n - 1] == t[n - 1] == '}';
  }

  lemma {:induction false} ReadsFlags(fmt: string, i: nat, p: FmtPart, args: seq<SigBit>, s: Spelling, next: nat)
    requires s.IntegerSpelling? && Good(s) && UpTo(fmt, i, s.sign + Options(s.showBase, s.group, s.signed'), next)
    requires !p.showBase && !p.group && p.sign.Minus?
    ensures i < |fmt| && ReadFlags(fmt, i, p, args)
         == Some(Parsed(p.(sign := if s.sign == "+" then PlusMinus else if s.sign == " " then SpaceMinus else Minus,
                           showBase := s.showBase, group := s.group, signed' := s.signed'), args, next))
  {
    var sign := if s.sign == "+" then PlusMinus else if s.sign == " " then SpaceMinus else Minus;
    var j := AtSplit(fmt, i, s.sign, Options(s.showBase, s.group, s.signed'), s.sign + Options(s.showBase, s.group, s.signed'));
    ReadsOptions(fmt, j, p.(sign := sign), args, s.showBase, s.group, s.signed', next);
    assert s.sign != "" ==> fmt[i] == s.sign[0];
    assert ReadSign(fmt, i, p) == (p.(sign := sign), j);
  }

  lemma {:induction false} ReadWidthHead(fmt: string, i: nat, width: nat, j: nat, p: FmtPart, q: FmtPart, args: seq<SigBit>)
    requires i < |fmt| && ReadNumber(fmt, i, 0) == (width, j) && j + 1 < |fmt| && Typed(p.(width := width), fmt[j]) == Some(q)
    ensures ReadWidth(fmt, i, p, args) == if q.kind.Integer? then ReadFlags(fmt, j + 1, q, args) else Closed(fmt, j + 1, q, args)
  {
  }

  /** Up to the padding. */
  function Placed(s: Spelling, sig: seq<SigBit>): FmtPart
    requires !s.UnicharSpelling?
  {
    EMPTY.(sig := sig, justify := if s.justify == '>' then Right else if s.justify == '<' then Left else Numeric, padding := s.padding)
  }

  lemma {:induction false} ReadsEnding(fmt: string, i: nat, j: nat, s: Spelling, sig: seq<SigBit>, args: seq<SigBit>, next: nat)
    requires Good(s) && !s.UnicharSpelling? && i <= j <= |fmt| && ReadNumber(fmt, i, 0) == (Number(0, s.width), j) && UpTo(fmt, j, Ending(s), next)
    ensures i < |fmt| && ReadWidth(fmt, i, Placed(s, sig), args) == Some(Parsed(Meaning(s, sig), args, next))
  {
    var end, p := Ending(s), Placed(s, sig).(width := Number(0, s.width));
    assert fmt[j] == end[0] == s.kind && fmt[j + 1] == end[1];
    var q := Typed(p, s.kind).value;
    ReadWidthHead(fmt, i, p.width, j, Placed(s, sig), q, args);
    if s.IntegerSpelling? {
      ReadsInteger(fmt, j, s, p, q, sig, args, next);
    }
  }

  lemma {:induction false} ReadsInteger(fmt: string, j: nat, s: Spelling, p: FmtPart, q: FmtPart, sig: seq<SigBit>, args: seq<SigBit>, next: nat)
    requires s.IntegerSpelling? && Good(s) && UpTo(fmt, j, Ending(s), next)
    requires p == Placed(s, sig).(width := Number(0, s.width)) && Typed(p, s.kind) == Some(q)
    ensures j + 1 < |fmt| && ReadFlags(fmt, j + 1, q, args) == Some(Parsed(Meaning(s, sig), args, next))
  {
    var flags := s.sign + Options(s.showBase, s.group, s.signed');
    var k := AtSplit(fmt, j, [s.kind], flags, Ending(s));
    ReadsFlags(fmt, j + 1, q, args, s, next);
  }

  lemma {:induction false} ReadsWidth(fmt: string, i: nat, s: Spelling, sig: seq<SigBit>, args: seq<SigBit>, next: nat)
    requires Good(s) && !s.UnicharSpelling? && UpTo(fmt, i, s.width + Ending(s), next)
    ensures i < |fmt| && ReadWidth(fmt, i, Placed(s, sig), args) == Some(Parsed(Meaning(s, sig), args, next))
  {
    var j := AtSplit(fmt, i, s.width, Ending(s), s.width + Ending(s));
    assert fmt[j] == Ending(s)[0] == s.kind;
    ReadsNumber(fmt, i, s.width, 0);
    ReadsEnding(fmt, i, j, s, sig, args, next);
  }

  /** A substitution with a justification is read up to its padding, and then from its width on. */
  lemma {:induction false} ReadPartHead(fmt: string, i: nat, size: nat, j: nat, justify: Justify, args: seq<SigBit>)
    requires i <= |fmt| && ReadNumber(fmt, i, 0) == (size, j) && j + 3 < |fmt| && size <= |args|
    requires fmt[j] == ':' && Justified(fmt[j + 1]) == Some(justify)
    ensures ReadPart(fmt, i, args)
         == ReadWidth(fmt, j + 3, EMPTY.(sig := args[..size], justify := justify, padding := fmt[j + 2]), args[size..])
  {
  }

  lemma {:induction false} ReadsUnichar(fmt: string, i: nat, s: Spelling, args: seq<SigBit>, next: nat)
    requires Good(s) && s.UnicharSpelling? && UpTo(fmt, i, Spelled(s), next) && Size(s) <= |args|
    ensures ReadPart(fmt, i, args) == Some(Parsed(Meaning(s, args[..Size(s)]), args[Size(s)..], next))
  {
    var end := Ending(s);
    var j := AtSplit(fmt, i, s.size, end, Spelled(s));
    assert fmt[j] == end[0] && fmt[j + 1] == end[1] && fmt[j + 2] == end[2];
    ReadsNumber(fmt, i, s.size, 0);
  }

  /** The text from i to next reads as what the spelling means, and takes exactly as many arguments as it says. */
  predicate ReadAs(fmt: string, i: nat, s: Spelling, args: seq<SigBit>, next: nat)
    requires i <= |fmt| && Good(s) && Size(s) <= |args|
  {
    ReadPart(fmt, i, args) == Some(Parsed(Meaning(s, args[..Size(s)]), args[Size(s)..], next))
  }

  /** A spelled substitution reads as what it means. */
  lemma {:induction false} ReadsSpelling(fmt: string, i: nat, s: Spelling, args: seq<SigBit>, next: nat)
    requires Good(s) && UpTo(fmt, i, Spelled(s), next) && Size(s) <= |args|
    ensures i < next <= |fmt| && ReadAs(fmt, i, s, args, next)
  {
    if s.UnicharSpelling? {
      ReadsUnichar(fmt, i, s, args, next);
    } else {
      var j := ReadsHead(fmt, i, s, next);
      ReadsWidth(fmt, j + 3, s, args[..Size(s)], args[Size(s)..], next);
      ReadPartHead(fmt, i, Size(s), j, Placed(s, []).justify, args);
    }
  }

  /** The size, the colon, the justification and the padding. */
  lemma {:induction false} ReadsHead(fmt: string, i: nat, s: Spelling, next: nat) returns (j: nat)
    requires Good(s) && !s.UnicharSpelling? && UpTo(fmt, i, Spelled(s), next)
    ensures i <= j && j + 3 < next <= |fmt| && ReadNumber(fmt, i, 0) == (Size(s), j)
    ensures fmt[j] == ':' && Justified(fmt[j + 1]) == Some(Placed(s, []).justify) && fmt[j + 2] == s.padding
    ensures UpTo(fmt, j + 3, s.width + Ending(s), next)
  {
    var head, tail := [':', s.justify, s.padding], s.width + Ending(s);
    j := AtSplit(fmt, i, s.size, head + tail, Spelled(s));
    var k := AtSplit(fmt, j, head, tail, head + tail);
    assert fmt[j] == head[0] && fmt[j + 1] == head[1] && fmt[j + 2] == head[2];
    ReadsNumber(fmt, i, s.size, 0);
  }

  // ------------------------------------------- what is read was spelled

  lemma {:induction false} NumberWasSpelled(fmt: string, i: nat, n: nat, v: nat, j: nat)
    requires i <= |fmt| && ReadNumber(fmt, i, n) == (v, j)
    ensures i <= j <= |fmt| && Digits(fmt[i..j]) && Number(n, fmt[i..j]) == v
    decreases |fmt| - i
  {
    if i < |fmt| && Digit(fmt[i]) {
      NumberWasSpelled(fmt, i + 1, 10 * n + DigitValue(fmt[i]), v, j);
      var s := fmt[i..j];
      assert s[1..] == fmt[i + 1..j];
      forall k | 0 <= k < |s| ensures Digit(s[k]) {
        assert k > 0 ==> s[k] == s[1..][k - 1];
      }
      NumberFront(n, s);
    } else {
      assert fmt[i..j] == "" && Number(n, "") == n;
    }
  }

  lemma {:induction false} OptionsWereSpelled(fmt: string, i: nat, p: FmtPart, args: seq<SigBit>)
    returns (showBase: bool, group: bool, signed': bool)
    requires ReadOptions(fmt, i, p, args).Some?
    ensures At(fmt, i, Options(showBase, group, signed')) && ReadOptions(fmt, i, p, args).value.next == i + |Options(showBase, group, signed')|
  {
    showBase := Char(fmt, i) == '#';
    var i1 := if showBase then i + 1 else i;
    group := Char(fmt, i1) == '_';
    var i2 := if group then i1 + 1 else i1;
    signed' := Char(fmt, i2) == 's';
  }

  lemma {:induction false} FlagsWereSpelled(fmt: string, i: nat, p: FmtPart, args: seq<SigBit>)
    returns (sign: string, showBase: bool, group: bool, signed': bool)
    requires i < |fmt| && ReadFlags(fmt, i, p, args).Some?
    ensures sign in {"", "-", "+", " "}
    ensures UpTo(fmt, i, sign + Options(showBase, group, signed'), ReadFlags(fmt, i, p, args).value.next)
  {
    var (p1, j) := ReadSign(fmt, i, p);
    sign := if j == i then "" else [fmt[i]];
    showBase, group, signed' := OptionsWereSpelled(fmt, j, p1, args);
    AtJoin(fmt, i, sign, Options(showBase, group, signed'));
  }

  lemma {:induction false} AtJoin(fmt: string, i: nat, s: string, t: string)
    requires At(fmt, i, s) && At(fmt, i + |s|, t)
    ensures At(fmt, i, s + t)
  {
    var u := s + t;
    forall k | 0 <= k < |u| ensures u[k] == fmt[i + k] {
      assert k >= |s| ==> u[k] == t[k - |s|] == fmt[i + |s| + (k - |s|)];
    }
  }

  lemma {:induction false} AtSlice(fmt: string, i: nat, j: nat)
    requires i <= j <= |fmt|
    ensures At(fmt, i, fmt[i..j])
  {
  }

  /** From the type character on, with everything before it given. */
  lemma {:induction false} EndingWasSpelled(fmt: string, i: nat, j: nat, p: FmtPart, args: seq<SigBit>, size: string, justify: char)
    returns (s: Spelling)
    requires i < |fmt| && i <= j <= |fmt| && ReadWidth(fmt, i, p, args).Some? && ReadNumber(fmt, i, 0).1 == j
    requires Digits(size) && justify in {'>', '<', '='} && Digits(fmt[i..j])
    ensures Good(s) && !s.UnicharSpelling? && s.size == size && s.justify == justify && s.padding == p.padding && s.width == fmt[i..j]
    ensures UpTo(fmt, j, Ending(s), ReadWidth(fmt, i, p, args).value.next)
  {
    var (width, k) := ReadNumber(fmt, i, 0);
    var q := Typed(p.(width := width), fmt[j]).value;
    ReadWidthHead(fmt, i, width, j, p, q, args);
    s := KindWasSpelled(fmt, j, p.(width := width), q, args, TextSpelling(size, justify, p.padding, fmt[i..j], fmt[j]), ReadWidth(fmt, i, p, args));
  }

  lemma {:induction false} KindWasSpelled(fmt: string, j: nat, p: FmtPart, q: FmtPart, args: seq<SigBit>, t: Spelling, r: Option<Parsed>) returns (s: Spelling)
    requires t.TextSpelling? && Digits(t.size) && t.justify in {'>', '<', '='} && Digits(t.width)
    requires j + 1 < |fmt| && fmt[j] == t.kind && Typed(p, t.kind) == Some(q) && r.Some?
    requires r == if q.kind.Integer? then ReadFlags(fmt, j + 1, q, args) else Closed(fmt, j + 1, q, args)
    ensures Good(s) && !s.UnicharSpelling? && s.size == t.size && s.justify == t.justify && s.padding == t.padding && s.width == t.width
    ensures UpTo(fmt, j, Ending(s), r.value.next)
  {
    if q.kind.Integer? {
      s := IntegerWasSpelled(fmt, j, q, args, t, r.value.next);
    } else {
      s := t;
    }
  }

  lemma {:induction false} IntegerWasSpelled(fmt: string, j: nat, q: FmtPart, args: seq<SigBit>, t: Spelling, next: nat) returns (s: Spelling)
    requires t.TextSpelling? && Digits(t.size) && t.justify in {'>', '<', '='} && Digits(t.width) && t.kind in {'b', 'o', 'd', 'h', 'H'}
    requires j + 1 < |fmt| && fmt[j] == t.kind && ReadFlags(fmt, j + 1, q, args).Some? && next == ReadFlags(fmt, j + 1, q, args).value.next
    ensures Good(s) && s.IntegerSpelling? && s.size == t.size && s.justify == t.justify && s.padding == t.padding && s.width == t.width
    ensures UpTo(fmt, j, Ending(s), next)
  {
    var sign, showBase, group, signed' := FlagsWereSpelled(fmt, j + 1, q, args);
    s := IntegerSpelling(t.size, t.justify, t.padding, t.width, t.kind, sign, showBase, group, signed');
    AtJoin(fmt, j, [t.kind], sign + Options(showBase, group, signed'));
  }

  lemma {:induction false} UnicharWasSpelled(fmt: string, i: nat, j: nat, args: seq<SigBit>) returns (s: Spelling)
    requires i <= j && j + 1 < |fmt| && ReadNumber(fmt, i, 0).1 == j && fmt[j + 1] == 'U' && ReadPart(fmt, i, args).Some?
    ensures Good(s) && Size(s) <= |args| && UpTo(fmt, i, Spelled(s), ReadPart(fmt, i, args).value.next)
  {
    NumberWasSpelled(fmt, i, 0, ReadNumber(fmt, i, 0).0, j);
    s := UnicharSpelling(fmt[i..j]);
    AtJoin(fmt, i, fmt[i..j], ":U}");
  }

  /** Whatever is read was spelled. */
  lemma {:induction false} WasSpelled(fmt: string, i: nat, args: seq<SigBit>) returns (s: Spelling)
    requires i <= |fmt| && ReadPart(fmt, i, args).Some?
    ensures Good(s) && Size(s) <= |args| && UpTo(fmt, i, Spelled(s), ReadPart(fmt, i, args).value.next)
  {
    var (size, j) := ReadNumber(fmt, i, 0);
    if fmt[j + 1] == 'U' {
      s := UnicharWasSpelled(fmt, i, j, args);
    } else {
      var justify := Justified(fmt[j + 1]).value;
      ReadPartHead(fmt, i, size, j, justify, args);
      s := PlacedWasSpelled(fmt, i, j, EMPTY.(sig := args[..size], justify := justify, padding := fmt[j + 2]), args[size..]);
    }
  }

  lemma {:induction false} PlacedWasSpelled(fmt: string, i: nat, j: nat, p: FmtPart, args: seq<SigBit>) returns (s: Spelling)
    requires i <= j && j + 3 < |fmt| && ReadNumber(fmt, i, 0).1 == j && fmt[j] == ':' && fmt[j + 1] in {'>', '<', '='} && fmt[j + 2] == p.padding
    requires ReadWidth(fmt, j + 3, p, args).Some?
    ensures Good(s) && Size(s) == ReadNumber(fmt, i, 0).0 && UpTo(fmt, i, Spelled(s), ReadWidth(fmt, j + 3, p, args).value.next)
  {
    NumberWasSpelled(fmt, i, 0, ReadNumber(fmt, i, 0).0, j);
    var (width, k) := ReadNumber(fmt, j + 3, 0);
    NumberWasSpelled(fmt, j + 3, 0, width, k);
    s := EndingWasSpelled(fmt, j + 3, k, p, args, fmt[i..j], fmt[j + 1]);
    JoinPieces(fmt, i, j, k, s.justify, s.padding, Ending(s));
  }

  lemma {:induction false} JoinPieces(fmt: string, i: nat, j: nat, k: nat, justify: char, padding: char, end: string)
    requires i <= j && j + 3 <= k <= |fmt| && fmt[j] == ':' && fmt[j + 1] == justify && fmt[j + 2] == padding && At(fmt, k, end)
    ensures At(fmt, i, fmt[i..j] + ([':', justify, padding] + (fmt[j + 3..k] + end)))
  {
    AtJoin(fmt, j + 3, fmt[j + 3..k], end);
    AtJoin(fmt, j, [':', justify, padding], fmt[j + 3..k] + end);
    AtJoin(fmt, i, fmt[i..j], [':', justify, padding] + (fmt[j + 3..k] + end));
  }

  /** The text at i spells a substitution that takes at most n arguments. */
  predicate SpelledAt(fmt: string, i: nat, s: Spelling, n: nat) {
    Good(s) && At(fmt, i, Spelled(s)) && Size(s) <= n
  }

  lemma {:induction false} WasSpelledAt(fmt: string, i: nat, args: seq<SigBit>) returns (s: Spelling)
    requires i <= |fmt| && ReadPart(fmt, i, args).Some?
    ensures SpelledAt(fmt, i, s, |args|)
  {
    s := WasSpelled(fmt, i, args);
  }

  /** A substitution is read exactly if it is spelled in one of these ways and the arguments suffice. */
  lemma {:induction false} ReadsExactly(fmt: string, i: nat, args: seq<SigBit>)
    requires i <= |fmt|
    ensures ReadPart(fmt, i, args).Some? <==> exists s :: SpelledAt(fmt, i, s, |args|)
    ensures forall s | SpelledAt(fmt, i, s, |args|) :: ReadAs(fmt, i, s, args, i + |Spelled(s)|)
  {
    if ReadPart(fmt, i, args).Some? {
      var s := WasSpelledAt(fmt, i, args);
    }
    forall s | SpelledAt(fmt, i, s, |args|) ensures ReadAs(fmt, i, s, args, i + |Spelled(s)|) {
      ReadsSpelling(fmt, i, s, args, i + |Spelled(s)|);
    }
  }

  // ------------------------------------------------------- whole formats

  /** A format is literal characters and substitutions, one after the other. */
  datatype Item = Plain(c: char) | Substituted(s: Spelling)

  /** A brace that stands for itself is doubled. */
  function ItemText(item: Item): string {
    match item
    case Plain(c) => if c == '{' then "{{" else if c == '}' then "}}" else [c]
    case Substituted(s) => "{" + Spelled(s)
  }

  function FormatText(items: seq<Item>): string {
    if items == [] then "" else ItemText(items[0]) + FormatText(items[1..])
  }

  /** Every substitution is well formed, and n arguments suffice for all of them. */
  predicate Fits(items: seq<Item>, n: nat) {
    if items == [] then true
    else match items[0]
      case Plain(_) => Fits(items[1..], n)
      case Substituted(s) => Good(s) && Size(s) <= n && Fits(items[1..], n - Size(s))
  }

  /** The parts a format denotes; str is the literal before it. */
  function Denoted(items: seq<Item>, args: seq<SigBit>, str: string): seq<FmtPart>
    requires Fits(items, |args|)
  {
    if items == [] then (if str == "" then [] else [EMPTY.(str := str)])
    else match items[0]
      case Plain(c) => Denoted(items[1..], args, str + [c])
      case Substituted(s) =>
        (if str == "" then [] else [EMPTY.(str := str)])
        + [Meaning(s, args[..Size(s)])] + Denoted(items[1..], args[Size(s)..], "")
  }

  /** The items are a way to write the format, with at least the arguments they need. */
  predicate Writes(items: seq<Item>, fmt: string, args: seq<SigBit>) {
    Fits(items, |args|) && FormatText(items) == fmt
  }

  lemma {:induction false} ReadsPlain(fmt: string, i: nat, c: char, args: seq<SigBit>, str: string, next: nat)
    requires UpTo(fmt, i, ItemText(Plain(c)), next)
    ensures Read(fmt, i, args, str) == Read(fmt, next, args, str + [c])
  {
    var t := ItemText(Plain(c));
    assert fmt[i] == t[0];
    if c in {'{', '}'} {
      assert fmt[i + 1] == t[1] && Doubled(fmt, i, c);
      assert "{" == ['{'] && "}" == ['}'];
    }
  }

  /** A substitution does not start with a second brace. */
  lemma {:induction false} SpelledFront(fmt: string, i: nat, s: Spelling)
    requires Good(s) && At(fmt, i, Spelled(s))
    ensures i < |fmt| && (fmt[i] == ':' || Digit(fmt[i]))
  {
    var t := Spelled(s);
    assert fmt[i] == t[0];
    if s.size != "" {
      assert t[0] == s.size[0];
    }
  }

  /** The parts so far, continued by what the rest reads as. */
  function Continued(parts: seq<FmtPart>, rest: Option<seq<FmtPart>>): Option<seq<FmtPart>> {
    if rest.None? then None else Some(parts + rest.value)
  }

  lemma {:induction false} ReadsBrace(fmt: string, i: nat, p: Parsed, args: seq<SigBit>, str: string)
    requires i + 1 < |fmt| && fmt[i] == '{' && fmt[i + 1] != '{' && ReadPart(fmt, i + 1, args) == Some(p)
    ensures p.next <= |fmt|
    ensures Read(fmt, i, args, str) == Continued(Flush(str) + [p.part], Read(fmt, p.next, p.args, ""))
  {
  }

  lemma {:induction false} ReadsSubstituted(fmt: string, i: nat, s: Spelling, args: seq<SigBit>, str: string, next: nat, ps: seq<FmtPart>)
    requires Good(s) && Size(s) <= |args| && UpTo(fmt, i, ItemText(Substituted(s)), next) && Read(fmt, next, args[Size(s)..], "") == Some(ps)
    ensures Read(fmt, i, args, str) == Some((if str == "" then [] else [EMPTY.(str := str)]) + [Meaning(s, args[..Size(s)])] + ps)
  {
    var j := AtSplit(fmt, i, "{", Spelled(s), ItemText(Substituted(s)));
    assert fmt[i] == "{"[0];
    SpelledFront(fmt, i + 1, s);
    ReadsSpelling(fmt, i + 1, s, args, next);
    ReadsBrace(fmt, i, Parsed(Meaning(s, args[..Size(s)]), args[Size(s)..], next), args, str);
  }

  /** Every format that is written in these ways reads as what it denotes. */
  lemma {:induction false} ReadsFormat(fmt: string, i: nat, items: seq<Item>, args: seq<SigBit>, str: string)
    requires Fits(items, |args|) && At(fmt, i, FormatText(items)) && i + |FormatText(items)| == |fmt|
    ensures Read(fmt, i, args, str) == Some(Denoted(items, args, str))
    decreases |items|
  {
    if items != [] {
      var item, rest := items[0], items[1..];
      var next := AtSplit(fmt, i, ItemText(item), FormatText(rest), FormatText(items));
      if item.Plain? {
        ReadsFormat(fmt, next, rest, args, str + [item.c]);
        ReadsPlain(fmt, i, item.c, args, str, next);
      } else {
        var args' := args[Size(item.s)..];
        ReadsFormat(fmt, next, rest, args', "");
        ReadsSubstituted(fmt, i, item.s, args, str, next, Denoted(rest, args', ""));
      }
    }
  }

  lemma {:induction false} JoinItems(fmt: string, i: nat, item: Item, next: nat, more: seq<Item>, n: nat)
    requires UpTo(fmt, i, ItemText(item), next) && At(fmt, next, FormatText(more))
    requires if item.Plain? then Fits(more, n) else Good(item.s) && Size(item.s) <= n && Fits(more, n - Size(item.s))
    ensures Fits([item] + more, n) && At(fmt, i, FormatText([item] + more))
    ensures i + |FormatText([item] + more)| == next + |FormatText(more)|
  {
    assert ([item] + more)[1..] == more;
    AtJoin(fmt, i, ItemText(item), FormatText(more));
  }

  /** The item that reading meets first. */
  lemma {:induction false} FirstItem(fmt: string, i: nat, args: seq<SigBit>, str: string) returns (item: Item, next: nat, rest: seq<SigBit>, str': string)
    requires i < |fmt| && Read(fmt, i, args, str).Some?
    ensures UpTo(fmt, i, ItemText(item), next) && i < next <= |fmt| && Read(fmt, next, rest, str').Some?
    ensures if item.Plain? then rest == args else Good(item.s) && Size(item.s) <= |args| && rest == args[Size(item.s)..]
  {
    next, rest, str' := i + 1, args, str + [fmt[i]];
    if Doubled(fmt, i, '}') {
      item, next, str' := Plain('}'), i + 2, str + "}";
    } else if Doubled(fmt, i, '{') {
      item, next, str' := Plain('{'), i + 2, str + "{";
    } else if fmt[i] == '{' {
      var p := ReadPart(fmt, i + 1, args).value;
      var s := WasSpelled(fmt, i + 1, args);
      ReadsSpelling(fmt, i + 1, s, args, p.next);
      AtJoin(fmt, i, "{", Spelled(s));
      item, next, rest, str' := Substituted(s), p.next, p.args, "";
    } else {
      item := Plain(fmt[i]);
    }
  }

  /** Whatever reads as parts is written in these ways. */
  lemma {:induction false} FormatWasWritten(fmt: string, i: nat, args: seq<SigBit>, str: string) returns (items: seq<Item>)
    requires i <= |fmt| && Read(fmt, i, args, str).Some?
    ensures Fits(items, |args|) && At(fmt, i, FormatText(items)) && i + |FormatText(items)| == |fmt|
    decreases |fmt| - i
  {
    if i == |fmt| {
      items := [];
    } else {
      var item, next, rest, str' := FirstItem(fmt, i, args, str);
      var more := FormatWasWritten(fmt, next, rest, str');
      JoinItems(fmt, i, item, next, more, |args|);
      items := [item] + more;
    }
  }

  lemma {:induction false} AtWhole(fmt: string, t: string)
    ensures At(fmt, 0, t) && |t| == |fmt| <==> t == fmt
  {
  }

  /** A format reads exactly if it is written in these ways, and as what it denotes. */
  lemma {:induction false} ReadExactly(fmt: string, args: seq<SigBit>)
    ensures Read(fmt, 0, args, "").Some? <==> exists items :: Writes(items, fmt, args)
    ensures forall items | Writes(items, fmt, args) :: Read(fmt, 0, args, "") == Some(Denoted(items, args, ""))
  {
    if Read(fmt, 0, args, "").Some? {
      var items := FormatWasWritten(fmt, 0, args, "");
      AtWhole(fmt, FormatText(items));
      assert Writes(items, fmt, args);
    }
    forall items | Writes(items, fmt, args) ensures Read(fmt, 0, args, "") == Some(Denoted(items, args, "")) {
      AtWhole(fmt, FormatText(items));
      ReadsFormat(fmt, 0, items, args, "");
    }
  }
}
