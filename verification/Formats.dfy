/** What a format means, from what is written in it: texts, doubled percent signs and conversions in any order. */
module Formats {
  import opened Bytes
  import opened Printf

  // ---------------------------------------------------------------- how formats are written

  /** A width or a precision. */
  datatype Size = Omitted | Written(digits: seq<byte>) | Star

  datatype Piece =
    | Plain(text: seq<byte>)
    | Percent
    | Spec(flags: seq<byte>, width: Size, precision: Option<Size>, modifier: Option<byte>, op: byte)

  function SizeText(x: Size): seq<byte> {
    match x
    case Omitted => []
    case Written(ds) => ds
    case Star => ['*' as int]
  }

  function PrecisionText(x: Option<Size>): seq<byte> {
    if x.None? then [] else ['.' as int] + SizeText(x.value)
  }

  function ModifierText(m: Option<byte>): seq<byte> {
    if m.None? then [] else [m.value]
  }

  function TextOf(p: Piece): seq<byte> {
    match p
    case Plain(text) => text
    case Percent => ['%' as int, '%' as int]
    case Spec(flags, width, precision, modifier, op) =>
      ['%' as int] + flags + SizeText(width) + PrecisionText(precision) + ModifierText(modifier) + [op]
  }

  function FormatOf(ps: seq<Piece>): seq<byte> {
    if ps == [] then [] else TextOf(ps[0]) + FormatOf(ps[1..])
  }

  predicate FlagChar(c: byte) {
    c == '-' as int || c == '0' as int || c == '+' as int || c == ' ' as int || c == '#' as int
  }

  predicate DigitChar(c: byte) {
    '0' as int <= c <= '9' as int
  }

  predicate ModifierChar(c: byte) {
    c == 'l' as int || c == 'L' as int || c == 'h' as int
  }

  predicate AllDigits(ds: seq<byte>) {
    forall c | c in ds :: DigitChar(c)
  }

  /** A conversion without flags, width and precision. */
  predicate IsBare(p: Piece) {
    p.Spec? && p.flags == [] && p.width == Omitted && p.precision == None
  }

  /** A width or a precision ends in front of `c`. */
  predicate EndsAt(x: Size, c: byte) {
    && (x == Omitted ==> !DigitChar(c) && c != '*' as int)
    && (x.Written? ==> !DigitChar(c))
  }

  /** The character behind the flags, the width and the precision. */
  function Behind(p: Piece): byte
    requires p.Spec?
  {
    if p.modifier.None? then p.op else p.modifier.value
  }

  /** A piece can be told from what surrounds it: a text has no percent sign, a width does not start like a flag, and
      no character is taken for part of what stands in front of it. */
  predicate Spelled(p: Piece) {
    match p
    case Plain(text) => '%' as int !in text
    case Percent => true
    case Spec(flags, width, precision, modifier, op) =>
      && (forall c | c in flags :: FlagChar(c))
      && (width.Written? ==> width.digits != [] && AllDigits(width.digits) && width.digits[0] != '0' as int)
      && (precision.Some? && precision.value.Written? ==>
            precision.value.digits != [] && AllDigits(precision.value.digits))
      && (if modifier.Some? then ModifierChar(modifier.value) else !ModifierChar(op))
      && (precision.Some? ==> EndsAt(precision.value, Behind(p)))
      && (precision.None? ==> Behind(p) != '.' as int && EndsAt(width, Behind(p)))
      && (precision.None? && width == Omitted ==> !FlagChar(Behind(p)))
      && (IsBare(p) && modifier.None? ==> op != '%' as int)
  }

  predicate AllSpelled(ps: seq<Piece>) {
    forall p | p in ps :: Spelled(p)
  }

  // ---------------------------------------------------------------- what they mean

  /** The conversions with the modifiers they may have. */
  predicate Accepted(bare: bool, modifier: Option<byte>, op: byte) {
    || (&& (op == 'd' as int || op == 'i' as int || op == 'u' as int
            || op == 'o' as int || op == 'x' as int || op == 'X' as int)
        && (modifier == None || modifier == Some('h' as int) || modifier == Some('l' as int)))
    || ((op == 'c' as int || op == 's' as int || op == 'p' as int) && modifier == None)
    || (&& (op == 'f' as int || op == 'e' as int || op == 'E' as int || op == 'g' as int || op == 'G' as int)
        && (modifier == None || modifier == Some('L' as int)))
    || (&& op == 'n' as int && bare
        && (modifier == None || modifier == Some('h' as int) || modifier == Some('l' as int)))
  }

  function Stars(x: Size): nat {
    if x == Star then 1 else 0
  }

  function PrecisionStars(x: Option<Size>): nat {
    if x.Some? then Stars(x.value) else 0
  }

  /** The arguments that a conversion takes for its width and its precision. */
  function StarsOf(p: Piece): nat
    requires p.Spec?
  {
    Stars(p.width) + PrecisionStars(p.precision)
  }

  /** At most six digits, and a number that takes no more. */
  predicate SmallWidth(x: Size, n: int) {
    && (x.Written? ==> |x.digits| <= 6)
    && (x == Star ==> -999999 <= n <= 999999)
  }

  predicate SmallPrecision(x: Size, n: int) {
    && (x.Written? ==> |x.digits| <= 6)
    && (x == Star ==> n <= 999999)
  }

  predicate Small(p: Piece, args: Args, k: nat)
    requires p.Spec?
  {
    && |p.flags| <= 5 && SmallWidth(p.width, args(k).number)
    && (p.precision.Some? ==> SmallPrecision(p.precision.value, args(k + Stars(p.width)).number))
  }

  /** A width or a precision with its argument filled in. */
  function Filled(x: Size, n: int): seq<byte> {
    match x
    case Omitted => []
    case Written(ds) => ds
    case Star => Decimal(n)
  }

  /** What is handed to `sprintf`: the conversion as written, with its arguments filled in; a negative precision counts
      as zero. */
  function Handed(p: Piece, args: Args, k: nat): seq<byte>
    requires p.Spec?
  {
    ['%' as int] + p.flags + Filled(p.width, args(k).number)
    + (if p.precision.None? then []
       else ['.' as int] + Filled(p.precision.value, Max(args(k + Stars(p.width)).number, 0)))
    + ModifierText(p.modifier) + [p.op]
  }

  /** What a conversion prints. The bare `%s` prints its argument as it is, `%n` prints nothing. */
  function Output(p: Piece, args: Args, k: nat, sprintf: Sprintf): seq<byte>
    requires p.Spec?
  {
    if p.op == 'n' as int then []
    else if p.op == 's' as int && IsBare(p) then args(k).text
    else sprintf(Handed(p, args, k), args(k + StarsOf(p)))
  }

  /** The pieces are printed one after the other, each conversion taking one argument behind those for its width and
      its precision, up to the first conversion that is not accepted. */
  function Meaning(ps: seq<Piece>, args: Args, k: nat, sprintf: Sprintf): Rendered {
    if ps == [] then Rendered([], true)
    else
      match ps[0]
      case Plain(text) => Behead(text, Meaning(ps[1..], args, k, sprintf))
      case Percent => Behead(['%' as int], Meaning(ps[1..], args, k, sprintf))
      case Spec(_, _, _, modifier, op) =>
        if Small(ps[0], args, k) && Accepted(IsBare(ps[0]), modifier, op) then
          Behead(Output(ps[0], args, k, sprintf), Meaning(ps[1..], args, k + StarsOf(ps[0]) + 1, sprintf))
        else Rendered([], false)
  }

  function Behead(bytes: seq<byte>, rest: Rendered): Rendered {
    Rendered(bytes + rest.bytes, rest.ok)
  }

  // ---------------------------------------------------------------- decimal numbers

  /** The number that digits stand for. */
  function ReadDigits(ds: seq<byte>): int {
    if ds == [] then 0 else 10 * ReadDigits(ds[..|ds| - 1]) + (ds[|ds| - 1] - '0' as int)
  }

  /** A number is written in decimal digits that read back to it, without leading zeros; a negative one behind a minus
      sign. */
  lemma {:induction false} DecimalReads(n: int)
    ensures n >= 0 ==> Decimal(n) != [] && AllDigits(Decimal(n)) && ReadDigits(Decimal(n)) == n
    ensures n > 0 ==> Decimal(n)[0] != '0' as int
    ensures n < 0 ==> Decimal(n) == ['-' as int] + Decimal(-n)
    decreases if n < 0 then -n else n
  {
    if n >= 10 {
      DecimalReads(n / 10);
      var init := Decimal(n / 10);
      assert Decimal(n)[..|init|] == init;
    } else if n >= 0 {
      assert Decimal(n)[..0] == [];
    }
  }

  // ---------------------------------------------------------------- the scanner finds what is written

  lemma SliceAt(pre: seq<byte>, t: seq<byte>, rest: seq<byte>)
    ensures (pre + t + rest)[|pre|..|pre| + |t|] == t
    ensures forall i | 0 <= i < |t| :: (pre + t + rest)[|pre| + i] == t[i]
  {
  }

  /** A text of accepted characters, up to one that is not. */
  lemma TextSpan(f: seq<byte>, pre: seq<byte>, t: seq<byte>, rest: seq<byte>, accept: byte -> bool)
    requires f == pre + t + rest && (forall c | c in t :: accept(c)) && (rest != [] ==> !accept(rest[0]))
    ensures Span(f, |pre|, accept) == |t| && f[|pre|..|pre| + |t|] == t
  {
    SliceAt(pre, t, rest);
    forall i | |pre| <= i < |pre| + |t|
      ensures accept(f[i])
    {
      assert f[i] == t[i - |pre|];
    }
    SpanIs(f, |pre|, |t|, accept);
  }

  /** What `At` sees behind a text. */
  function FirstOf(rest: seq<byte>): byte {
    if rest == [] then 0 else rest[0]
  }

  lemma AtBehind(f: seq<byte>, pre: seq<byte>, rest: seq<byte>)
    requires f == pre + rest
    ensures |pre| <= |f| && At(f, |pre|) == FirstOf(rest)
  {
  }

  /** What `ScanField` makes of a width or a precision. */
  function FieldOf(x: Size, n: int): Field {
    match x
    case Omitted => Absent
    case Written(ds) => Digits(ds)
    case Star => FromArg(n)
  }

  /** What `ScanField` makes of the digits and of the character it finds. */
  lemma FieldSteps(f: seq<byte>, at: nat, x: Size, args: Args, k: nat, negative: bool)
    requires at + |SizeText(x)| <= |f|
    requires Span(f, at, IsDigit) == if x.Written? then |x.digits| else 0
    requires x.Written? ==> x.digits != [] && f[at..at + |x.digits|] == x.digits
    requires x == Star ==> At(f, at) == STAR
    requires x == Omitted ==> At(f, at) != STAR
    ensures var n := if negative then args(k).number else Max(args(k).number, 0);
            ScanField(f, at, args, k, negative)
            == if (if negative then SmallWidth(x, n) else SmallPrecision(x, n))
               then Some((FieldOf(x, n), at + |SizeText(x)|, k + Stars(x)))
               else None
  {
    hide Decimal, Span, FieldText, FieldValue, At;
  }

  /** Digits, a star or nothing are found whole, up to the character behind them. */
  lemma FieldFound(f: seq<byte>, pre: seq<byte>, x: Size, rest: seq<byte>, args: Args, k: nat, negative: bool)
    requires f == pre + SizeText(x) + rest && EndsAt(x, FirstOf(rest))
    requires x.Written? ==> x.digits != [] && AllDigits(x.digits)
    ensures var n := if negative then args(k).number else Max(args(k).number, 0);
            ScanField(f, |pre|, args, k, negative)
            == if (if negative then SmallWidth(x, n) else SmallPrecision(x, n))
               then Some((FieldOf(x, n), |pre| + |SizeText(x)|, k + Stars(x)))
               else None
  {
    hide Decimal, Span, FieldText, FieldValue, At, ScanField, SmallWidth, SmallPrecision, FieldOf, Stars;
    if x.Written? {
      TextSpan(f, pre, x.digits, rest, IsDigit);
    } else {
      var behind := SizeText(x) + rest;
      assert f == pre + behind && f == pre + [] + behind;
      AtBehind(f, pre, behind);
      TextSpan(f, pre, [], behind, IsDigit);
    }
    FieldSteps(f, |pre|, x, args, k, negative);
  }

  /** A conversion as the slow path sees it. */
  function Seen(p: Piece, args: Args, k: nat): Directive
    requires p.Spec?
  {
    Directive(SeenHead(p, args, k), if p.modifier.None? then ' ' as int else p.modifier.value, p.op)
  }

  function SeenHead(p: Piece, args: Args, k: nat): Head
    requires p.Spec?
  {
    Head(p.flags, FieldOf(p.width, args(k).number), p.precision.Some?,
         if p.precision.None? then Absent
         else FieldOf(p.precision.value, Max(args(k + Stars(p.width)).number, 0)))
  }

  /** What stands in front of the modifier. */
  function HeadText(p: Piece): seq<byte>
    requires p.Spec?
  {
    ['%' as int] + p.flags + SizeText(p.width) + PrecisionText(p.precision)
  }

  function TailText(p: Piece): seq<byte>
    requires p.Spec?
  {
    ModifierText(p.modifier) + [p.op]
  }

  lemma HeadAndTail(p: Piece)
    requires p.Spec?
    ensures TextOf(p) == HeadText(p) + TailText(p) && TailText(p)[0] == Behind(p)
  {
  }

  /** The flags end where they should, and so does the width. */
  lemma HeadParts(p: Piece, rest: seq<byte>)
    requires p.Spec? && Spelled(p) && rest != [] && rest[0] == Behind(p)
    ensures var more := SizeText(p.width) + (PrecisionText(p.precision) + rest);
            && more != [] && !IsFlag(more[0])
            && EndsAt(p.width, FirstOf(PrecisionText(p.precision) + rest))
            && (FirstOf(PrecisionText(p.precision) + rest) == DOT <==> p.precision.Some?)
            && (p.precision.Some? ==> EndsAt(p.precision.value, FirstOf(rest)))
    ensures forall c | c in p.flags :: IsFlag(c)
    ensures p.width.Written? ==> p.width.digits != [] && AllDigits(p.width.digits)
    ensures p.precision.Some? && p.precision.value.Written? ==>
              p.precision.value.digits != [] && AllDigits(p.precision.value.digits)
  {
    assert p.width.Written? ==> p.width.digits[0] in p.width.digits;
  }

  /** The same format, cut in front of the flags, the width and the precision. */
  lemma Layout(f: seq<byte>, pre: seq<byte>, flags: seq<byte>, w: seq<byte>, q: seq<byte>, rest: seq<byte>)
    requires f == pre + (['%' as int] + flags + w + q) + rest
    ensures var a := pre + ['%' as int];
            && f == a + flags + (w + (q + rest)) && f == (a + flags) + w + (q + rest)
            && f == (a + flags + w) + (q + rest) && f == (a + flags + w) + q + rest
    ensures |pre| < |f| && f[|pre|] == '%' as int
  {
    var a := pre + ['%' as int];
    assert f[|pre|] == a[|pre|];
  }

  /** The part of `ScanHead` behind the width. */
  lemma PrecisionFound(f: seq<byte>, pre: seq<byte>, x: Size, rest: seq<byte>, args: Args, k: nat)
    requires f == pre + PrecisionText(Some(x)) + rest && EndsAt(x, FirstOf(rest))
    requires x.Written? ==> x.digits != [] && AllDigits(x.digits)
    ensures |pre| < |f|
    ensures ScanField(f, |pre| + 1, args, k, false)
         == if SmallPrecision(x, args(k).number)
            then Some((FieldOf(x, Max(args(k).number, 0)), |pre| + |PrecisionText(Some(x))|, k + Stars(x)))
            else None
  {
    hide ScanField;
    var b := pre + ['.' as int];
    assert f == b + SizeText(x) + rest;
    FieldFound(f, b, x, rest, args, k, false);
  }

  /** What `ScanHead` makes of the fields it finds. */
  lemma HeadSteps(f: seq<byte>, at: nat, args: Args, k: nat, n: nat, flags: seq<byte>,
                  first: Option<(Field, nat, nat)>, second: Option<(Field, nat, nat)>, dot: bool)
    requires at < |f| && f[at] == PERCENT && Span(f, at + 1, IsFlag) == n && f[at + 1..at + 1 + n] == flags
    requires ScanField(f, at + 1 + n, args, k, true) == first
    requires first.Some? ==> (At(f, first.value.1) == DOT <==> dot)
    requires first.Some? && dot ==> ScanField(f, first.value.1 + 1, args, first.value.2, false) == second
    ensures ScanHead(f, at, args, k)
         == if n > 5 || first.None? || (dot && second.None?) then None
            else if dot then Some((Head(flags, first.value.0, true, second.value.0), second.value.1, second.value.2))
            else Some((Head(flags, first.value.0, false, Absent), first.value.1, first.value.2))
  {
    hide ScanField, Span, At, FieldText, FieldValue, IsFlag;
  }

  /** Where the width starts and where it ends. */
  function WidthStart(pre: seq<byte>, p: Piece): nat
    requires p.Spec?
  {
    |pre| + 1 + |p.flags|
  }

  function WidthEnd(pre: seq<byte>, p: Piece): nat
    requires p.Spec?
  {
    WidthStart(pre, p) + |SizeText(p.width)|
  }

  predicate HeadAt(f: seq<byte>, pre: seq<byte>, p: Piece, rest: seq<byte>) {
    p.Spec? && Spelled(p) && f == pre + HeadText(p) + rest && rest != [] && rest[0] == Behind(p)
  }

  lemma FlagsAt(f: seq<byte>, pre: seq<byte>, p: Piece, rest: seq<byte>)
    requires HeadAt(f, pre, p, rest)
    ensures |pre| < |f| && f[|pre|] == PERCENT && WidthStart(pre, p) <= |f|
    ensures Span(f, |pre| + 1, IsFlag) == |p.flags| && f[|pre| + 1..WidthStart(pre, p)] == p.flags
  {
    hide Span, IsFlag;
    HeadParts(p, rest);
    Layout(f, pre, p.flags, SizeText(p.width), PrecisionText(p.precision), rest);
    TextSpan(f, pre + ['%' as int], p.flags, SizeText(p.width) + (PrecisionText(p.precision) + rest), IsFlag);
  }

  lemma WidthAt(f: seq<byte>, pre: seq<byte>, p: Piece, rest: seq<byte>, args: Args, k: nat)
    requires HeadAt(f, pre, p, rest)
    ensures WidthStart(pre, p) <= WidthEnd(pre, p) <= |f|
    ensures ScanField(f, WidthStart(pre, p), args, k, true)
         == if SmallWidth(p.width, args(k).number)
            then Some((FieldOf(p.width, args(k).number), WidthEnd(pre, p), k + Stars(p.width)))
            else None
    ensures At(f, WidthEnd(pre, p)) == DOT <==> p.precision.Some?
  {
    hide ScanField, IsFlag, SmallWidth, FieldOf, Spelled, EndsAt, FirstOf, AllDigits, SizeText, PrecisionText;
    hide At, FieldText, FieldValue, SmallPrecision, Stars, Behind;
    var w, more := SizeText(p.width), PrecisionText(p.precision) + rest;
    var b := pre + ['%' as int] + p.flags;
    HeadParts(p, rest);
    Layout(f, pre, p.flags, w, PrecisionText(p.precision), rest);
    hide HeadAt, HeadText;
    FieldFound(f, b, p.width, more, args, k, true);
    AtBehind(f, b + w, more);
    assert |b| == WidthStart(pre, p) && |b + w| == WidthEnd(pre, p);
  }


  lemma PrecisionAt(f: seq<byte>, pre: seq<byte>, p: Piece, rest: seq<byte>, args: Args, k: nat)
    requires HeadAt(f, pre, p, rest) && p.precision.Some?
    ensures var x, n := p.precision.value, args(k + Stars(p.width)).number;
            && WidthEnd(pre, p) + 1 <= |f|
            && ScanField(f, WidthEnd(pre, p) + 1, args, k + Stars(p.width), false)
            == if SmallPrecision(x, n)
               then Some((FieldOf(x, Max(n, 0)), |pre| + |HeadText(p)|, k + StarsOf(p)))
               else None
  {
    hide ScanField, IsFlag, SmallPrecision, FieldOf, Spelled, EndsAt, FirstOf, AllDigits, SizeText, PrecisionText;
    hide Stars;
    var c := pre + ['%' as int] + p.flags + SizeText(p.width);
    HeadParts(p, rest);
    Layout(f, pre, p.flags, SizeText(p.width), PrecisionText(p.precision), rest);
    hide HeadAt;
    PrecisionFound(f, c, p.precision.value, rest, args, k + Stars(p.width));
  }

  lemma HeadFound(f: seq<byte>, pre: seq<byte>, p: Piece, rest: seq<byte>, args: Args, k: nat)
    requires HeadAt(f, pre, p, rest)
    ensures |pre| < |f| && f[|pre|] == PERCENT
    ensures ScanHead(f, |pre|, args, k)
         == if Small(p, args, k)
            then Some((SeenHead(p, args, k), |pre| + |HeadText(p)|, k + StarsOf(p)))
            else None
  {
    hide HeadAt, ScanHead, ScanField, Span, SizeText, SmallWidth, SmallPrecision, FieldOf, HeadText, Small;
    hide FieldText, FieldValue, At, IsFlag;
    assert p.Spec? by { SpecAt(f, pre, p, rest); }
    FlagsAt(f, pre, p, rest);
    WidthAt(f, pre, p, rest, args, k);
    SmallParts(p, args, k);
    var first := ScanField(f, WidthStart(pre, p), args, k, true);
    if p.precision.Some? {
      PrecisionAt(f, pre, p, rest, args, k);
      var second := ScanField(f, WidthEnd(pre, p) + 1, args, k + Stars(p.width), false);
      HeadSteps(f, |pre|, args, k, |p.flags|, p.flags, first, second, true);
    } else {
      HeadLength(p);
      HeadSteps(f, |pre|, args, k, |p.flags|, p.flags, first, None, false);
    }
  }

  lemma SpecAt(f: seq<byte>, pre: seq<byte>, p: Piece, rest: seq<byte>)
    ensures HeadAt(f, pre, p, rest) ==> p.Spec?
  {
  }

  lemma SmallParts(p: Piece, args: Args, k: nat)
    requires p.Spec?
    ensures Small(p, args, k) <==>
            && |p.flags| <= 5 && SmallWidth(p.width, args(k).number)
            && (p.precision.Some? ==> SmallPrecision(p.precision.value, args(k + Stars(p.width)).number))
  {
  }

  lemma HeadLength(p: Piece)
    requires p.Spec?
    ensures p.precision.None? ==> |HeadText(p)| == 1 + |p.flags| + |SizeText(p.width)|
  {
  }

  lemma Found(f: seq<byte>, pre: seq<byte>, p: Piece, rest: seq<byte>, args: Args, k: nat)
    requires p.Spec? && Spelled(p) && f == pre + TextOf(p) + rest
    ensures |pre| < |f| && f[|pre|] == PERCENT
    ensures Scan(f, |pre|, args, k)
         == if Small(p, args, k) then Some((Seen(p, args, k), k + StarsOf(p))) else None
  {
    hide ScanHead, SeenHead, HeadText, Small;
    HeadAndTail(p);
    var h, tail := HeadText(p), TailText(p);
    assert f == pre + h + (tail + rest);
    assert HeadAt(f, pre, p, tail + rest);
    HeadFound(f, pre, p, tail + rest, args, k);
    SliceAt(pre + h, tail, rest);
    assert f == (pre + h) + tail + rest;
  }

  /** What is handed over is what the scanner rebuilds. */
  lemma SeenRebuilt(p: Piece, args: Args, k: nat)
    requires p.Spec? && (p.modifier.Some? ==> ModifierChar(p.modifier.value))
    ensures Seen(p, args, k).Rebuilt() == Handed(p, args, k)
    ensures |Seen(p, args, k).Text()| == |TextOf(p)|
  {
    hide Decimal;
    var n, m := args(k).number, Max(args(k + Stars(p.width)).number, 0);
    FilledField(p.width, n);
    if p.precision.Some? {
      FilledField(p.precision.value, m);
    }
  }

  lemma FilledField(x: Size, n: int)
    ensures FieldValue(FieldOf(x, n)) == Filled(x, n) && FieldText(FieldOf(x, n)) == SizeText(x)
  {
  }

  // ---------------------------------------------------------------- the conversions do what is written

  /** The outcome of a conversion whose arguments have been filled in. */
  predicate Performs(o: Outcome, p: Piece, args: Args, k: nat, sprintf: Sprintf)
    requires p.Spec?
  {
    if Accepted(IsBare(p), p.modifier, p.op) then o == Produced(Output(p, args, k, sprintf), k + StarsOf(p) + 1)
    else o == Failed
  }

  function ModifierOf(p: Piece): byte
    requires p.Spec?
  {
    if p.modifier.None? then ' ' as int else p.modifier.value
  }

  /** On the fast path a bare conversion is performed, refused, or left to the slow path. */
  lemma FastPerforms(p: Piece, args: Args, k: nat, sprintf: Sprintf)
    requires p.Spec? && Spelled(p) && IsBare(p)
    ensures var o := Convert(p.op, ModifierOf(p), Handed(p, args, k), true, args, k, sprintf);
            Performs(o, p, args, k, sprintf) ||
            (o == NotPerformed && (p.op == 'f' as int || !Accepted(true, p.modifier, p.op)))
  {
    hide Handed, Decimal;
  }

  /** The slow path performs or refuses what it is left with. */
  lemma SlowPerforms(p: Piece, args: Args, k: nat, sprintf: Sprintf)
    requires p.Spec? && Spelled(p) && (!IsBare(p) || p.op == 'f' as int || !Accepted(true, p.modifier, p.op))
    ensures var o := if !Bounded(p.op, ModifierOf(p)) then Failed
                     else Convert(p.op, ModifierOf(p), Handed(p, args, k), false, args, k + StarsOf(p), sprintf);
            Performs(if o.NotPerformed? then Failed else o, p, args, k, sprintf)
  {
    hide Handed, Decimal;
  }

  /** What stands behind the percent sign of a conversion. */
  lemma FirstBehind(f: seq<byte>, pre: seq<byte>, p: Piece, rest: seq<byte>, args: Args, k: nat)
    requires p.Spec? && Spelled(p) && f == pre + TextOf(p) + rest
    ensures |pre| < |f| && f[|pre|] == PERCENT
    ensures IsBare(p) ==> Bare(f, |pre|) == Seen(p, args, k)
    ensures !IsBare(p) ==> var c := At(f, |pre| + 1); FlagChar(c) || DigitChar(c) || c == '*' as int || c == '.' as int
  {
    hide Spelled, Decimal;
    var t := TextOf(p);
    SliceAt(pre, t, rest);
    assert |t| >= 2 && f[|pre|] == t[0] && f[|pre| + 1] == t[1];
    if IsBare(p) {
      BareText(p);
      assert p.modifier.Some? ==> f[|pre| + 2] == t[2];
      ModifierKnown(p);
    } else {
      SecondChar(p);
    }
  }

  lemma BareText(p: Piece)
    requires p.Spec? && IsBare(p)
    ensures TextOf(p) == ['%' as int] + ModifierText(p.modifier) + [p.op]
  {
  }

  lemma ModifierKnown(p: Piece)
    requires p.Spec? && Spelled(p)
    ensures if p.modifier.Some? then IsModifier(p.modifier.value) else !IsModifier(p.op)
  {
  }

  lemma SecondChar(p: Piece)
    requires p.Spec? && Spelled(p) && !IsBare(p)
    ensures var c := TextOf(p)[1]; FlagChar(c) || DigitChar(c) || c == '*' as int || c == '.' as int
  {
    if p.flags != [] {
      assert p.flags[0] in p.flags && TextOf(p)[1] == p.flags[0];
    } else if p.width.Written? {
      assert p.width.digits[0] in p.width.digits && TextOf(p)[1] == p.width.digits[0];
    }
  }

  lemma SeenParts(p: Piece, args: Args, k: nat)
    requires p.Spec?
    ensures Seen(p, args, k).op == p.op && Seen(p, args, k).modifier == ModifierOf(p)
    ensures IsBare(p) ==> Small(p, args, k) && StarsOf(p) == 0
  {
  }

  lemma NotAnOperation(f: seq<byte>, at: nat, args: Args, k: nat, sprintf: Sprintf)
    requires at < |f| && f[at] == PERCENT
    requires var c := At(f, at + 1); FlagChar(c) || DigitChar(c) || c == '*' as int || c == '.' as int
    ensures Fast(f, at, args, k, sprintf) == NotPerformed
  {
  }

  /** The slow path of a conversion. */
  lemma SlowMeans(f: seq<byte>, pre: seq<byte>, p: Piece, rest: seq<byte>, args: Args, k: nat, sprintf: Sprintf)
    requires p.Spec? && Spelled(p) && f == pre + TextOf(p) + rest
    requires !IsBare(p) || p.op == 'f' as int || !Accepted(true, p.modifier, p.op)
    ensures |pre| < |f| && f[|pre|] == PERCENT
    ensures var (o, length) := Slow(f, |pre|, args, k, sprintf);
            if Small(p, args, k) then Performs(o, p, args, k, sprintf) && (o.Produced? ==> length == |TextOf(p)|)
            else o == Failed
  {
    hide Scan, Convert, Spelled, Performs, Handed, Accepted, Bounded, Output, Seen, Small, StarsOf, TextOf;
    Found(f, pre, p, rest, args, k);
    SeenParts(p, args, k);
    SpelledModifier(p);
    SeenRebuilt(p, args, k);
    SlowPerforms(p, args, k, sprintf);
    PerformsFailed(p, args, k, sprintf);
  }

  lemma SpelledModifier(p: Piece)
    requires p.Spec? && Spelled(p)
    ensures p.modifier.Some? ==> ModifierChar(p.modifier.value)
  {
  }

  lemma PerformsFailed(p: Piece, args: Args, k: nat, sprintf: Sprintf)
    requires p.Spec?
    ensures Performs(Failed, p, args, k, sprintf) <==> !Accepted(IsBare(p), p.modifier, p.op)
    ensures !Performs(NotPerformed, p, args, k, sprintf)
  {
  }

  /** A conversion is performed, or refused, as written. */
  lemma SpecifierMeans(f: seq<byte>, pre: seq<byte>, p: Piece, rest: seq<byte>, args: Args, k: nat, sprintf: Sprintf)
    requires p.Spec? && Spelled(p) && f == pre + TextOf(p) + rest
    ensures |pre| < |f| && f[|pre|] == PERCENT
    ensures var (o, length) := Specifier(f, |pre|, args, k, sprintf);
            if Small(p, args, k) then Performs(o, p, args, k, sprintf) && (o.Produced? ==> length == |TextOf(p)|)
            else o == Failed
  {
    hide Convert, Spelled, Performs, Handed, Accepted, Output, Small, StarsOf, TextOf, Slow, Seen, IsBare;
    FirstBehind(f, pre, p, rest, args, k);
    if IsBare(p) {
      SeenParts(p, args, k);
      SpelledModifier(p);
      SeenRebuilt(p, args, k);
      FastPerforms(p, args, k, sprintf);
      PerformsFailed(p, args, k, sprintf);
    } else {
      NotAnOperation(f, |pre|, args, k, sprintf);
    }
    if !IsBare(p) || p.op == 'f' as int || !Accepted(true, p.modifier, p.op) {
      SlowMeans(f, pre, p, rest, args, k, sprintf);
    }
  }

  // ---------------------------------------------------------------- whole formats

  /** Literal text in front is printed as it is, wherever a piece ends. */
  lemma TextPrints(f: seq<byte>, p: nat, n: nat, args: Args, k: nat, sprintf: Sprintf)
    requires p + n <= |f| && 0 !in f && '%' as int !in f[p..p + n]
    ensures Render(f, p, args, k, sprintf) == Behead(f[p..p + n], Render(f, p + n, args, k, sprintf))
  {
    hide Specifier, Span;
    if n == 0 {
      assert f[p..p] + Render(f, p, args, k, sprintf).bytes == Render(f, p, args, k, sprintf).bytes;
    } else {
      assert f[p] == f[p..p + n][0];
      var m := Span(f, p, Literal);
      SpanReaches(f, p, n);
      if p + n < |f| && f[p + n] != PERCENT {
        SpanRest(f, p, n);
        var rest := Render(f, p + m, args, k, sprintf).bytes;
        assert f[p..p + m] == f[p..p + n] + f[p + n..p + m];
        assert f[p..p + n] + (f[p + n..p + m] + rest) == f[p..p + m] + rest;
      } else {
        SpanIsHere(f, p, n);
      }
    }
  }

  lemma {:induction false} SpanReaches(f: seq<byte>, p: nat, n: nat)
    requires p + n <= |f| && '%' as int !in f[p..p + n]
    ensures Span(f, p, Literal) >= n
    decreases n
  {
    if n > 0 {
      assert f[p] == f[p..p + n][0] && f[p + 1..p + n] == f[p..p + n][1..];
      SpanReaches(f, p + 1, n - 1);
    }
  }

  lemma {:induction false} SpanRest(f: seq<byte>, p: nat, n: nat)
    requires p + n <= |f| && Span(f, p, Literal) >= n
    ensures Span(f, p + n, Literal) == Span(f, p, Literal) - n
    decreases n
  {
    if n > 0 {
      SpanRest(f, p + 1, n - 1);
    }
  }

  lemma SpanIsHere(f: seq<byte>, p: nat, n: nat)
    requires p + n <= |f| && Span(f, p, Literal) >= n && (p + n == |f| || f[p + n] == PERCENT)
    ensures Span(f, p, Literal) == n
  {
    SpanRest(f, p, n);
  }

  /** A conversion at `p`, from its outcome. */
  lemma SpecifierPrints(f: seq<byte>, p: nat, args: Args, k: nat, sprintf: Sprintf)
    requires p < |f| && f[p] == PERCENT && 0 !in f
    ensures var (o, length) := Specifier(f, p, args, k, sprintf);
            && (o.Failed? ==> Render(f, p, args, k, sprintf) == Rendered([], false))
            && (o.Produced? ==>
                  && p + length <= |f|
                  && Render(f, p, args, k, sprintf) == Behead(o.bytes, Render(f, p + length, args, o.next, sprintf)))
  {
    hide Specifier;
    SpecifierFits(f, p, args, k, sprintf);
  }

  /** A piece at `at` that takes `size` characters is printed as it means, or is where printing ends. */
  ghost predicate PiecePrinted(f: seq<byte>, at: nat, size: nat, p: Piece, args: Args, k: nat, sprintf: Sprintf)
    requires at + size <= |f| && 0 !in f
  {
    match p
    case Plain(text) => Render(f, at, args, k, sprintf) == Behead(text, Render(f, at + size, args, k, sprintf))
    case Percent => Render(f, at, args, k, sprintf) == Behead(['%' as int], Render(f, at + size, args, k, sprintf))
    case Spec(_, _, _, modifier, op) =>
      Render(f, at, args, k, sprintf)
      == if Small(p, args, k) && Accepted(IsBare(p), modifier, op)
         then Behead(Output(p, args, k, sprintf), Render(f, at + size, args, k + StarsOf(p) + 1, sprintf))
         else Rendered([], false)
  }

  /** The next argument behind a piece. */
  function NextArg(p: Piece, k: nat): nat {
    if p.Spec? then k + StarsOf(p) + 1 else k
  }

  lemma FormatStep(f: seq<byte>, at: nat, size: nat, ps: seq<Piece>, args: Args, k: nat, sprintf: Sprintf)
    requires ps != [] && at + size <= |f| && 0 !in f && PiecePrinted(f, at, size, ps[0], args, k, sprintf)
    requires var next := NextArg(ps[0], k);
             Render(f, at + size, args, next, sprintf) == Meaning(ps[1..], args, next, sprintf)
    ensures Render(f, at, args, k, sprintf) == Meaning(ps, args, k, sprintf)
  {
    hide Render, Small, Accepted, Output, Behead, StarsOf, IsBare;
  }

  /** A format prints what its pieces mean, behind whatever stands in front of it. */
  lemma {:induction false} FormatMeans(pre: seq<byte>, ps: seq<Piece>, args: Args, k: nat, sprintf: Sprintf)
    requires AllSpelled(ps) && 0 !in pre + FormatOf(ps)
    ensures Render(pre + FormatOf(ps), |pre|, args, k, sprintf) == Meaning(ps, args, k, sprintf)
    decreases |ps|
  {
    hide Render, Spelled, TextOf, Meaning, PiecePrinted, NextArg;
    var f := pre + FormatOf(ps);
    if ps == [] {
      NothingPrints(f, args, k, sprintf);
      NothingMeant(args, k, sprintf);
    } else {
      var p, t, rest := ps[0], TextOf(ps[0]), FormatOf(ps[1..]);
      assert p in ps;
      assert f == (pre + t) + rest && f == pre + t + rest;
      FormatMeans(pre + t, ps[1..], args, NextArg(p, k), sprintf);
      PieceMeans(f, pre, p, rest, args, k, sprintf);
      FormatStep(f, |pre|, |t|, ps, args, k, sprintf);
    }
  }

  lemma NothingMeant(args: Args, k: nat, sprintf: Sprintf)
    ensures Meaning([], args, k, sprintf) == Rendered([], true)
  {
  }

  lemma PieceMeans(f: seq<byte>, pre: seq<byte>, p: Piece, rest: seq<byte>, args: Args, k: nat, sprintf: Sprintf)
    requires Spelled(p) && f == pre + TextOf(p) + rest && 0 !in f
    ensures |pre| + |TextOf(p)| <= |f| && PiecePrinted(f, |pre|, |TextOf(p)|, p, args, k, sprintf)
  {
    hide Spelled, TextOf, Render, PiecePrinted;
    match p {
      case Plain(_) => PlainMeans(f, pre, p, rest, args, k, sprintf);
      case Percent => PercentMeans(f, pre, p, rest, args, k, sprintf);
      case Spec(_, _, _, _, _) => SpecMeans(f, pre, p, rest, args, k, sprintf);
    }
  }

  lemma PlainMeans(f: seq<byte>, pre: seq<byte>, p: Piece, rest: seq<byte>, args: Args, k: nat, sprintf: Sprintf)
    requires p.Plain? && Spelled(p) && f == pre + TextOf(p) + rest && 0 !in f
    ensures |pre| + |TextOf(p)| <= |f| && PiecePrinted(f, |pre|, |TextOf(p)|, p, args, k, sprintf)
  {
    hide Render;
    SliceAt(pre, p.text, rest);
    TextPrints(f, |pre|, |p.text|, args, k, sprintf);
  }

  lemma PercentMeans(f: seq<byte>, pre: seq<byte>, p: Piece, rest: seq<byte>, args: Args, k: nat, sprintf: Sprintf)
    requires p.Percent? && f == pre + TextOf(p) + rest && 0 !in f
    ensures |pre| + |TextOf(p)| <= |f| && PiecePrinted(f, |pre|, |TextOf(p)|, p, args, k, sprintf)
  {
    hide Render;
    SliceAt(pre, TextOf(p), rest);
    assert f[|pre| + 0] == PERCENT && f[|pre| + 1] == PERCENT;
    PercentPrints(f, |pre|, args, k, sprintf);
  }

  lemma SpecMeans(f: seq<byte>, pre: seq<byte>, p: Piece, rest: seq<byte>, args: Args, k: nat, sprintf: Sprintf)
    requires p.Spec? && Spelled(p) && f == pre + TextOf(p) + rest && 0 !in f
    ensures |pre| + |TextOf(p)| <= |f| && PiecePrinted(f, |pre|, |TextOf(p)|, p, args, k, sprintf)
  {
    hide Specifier, Performs, Small, Spelled, TextOf, PiecePrinted;
    SpecifierMeans(f, pre, p, rest, args, k, sprintf);
    OutcomePrints(f, |pre|, |TextOf(p)|, p, args, k, sprintf);
  }

  lemma OutcomePrints(f: seq<byte>, at: nat, size: nat, p: Piece, args: Args, k: nat, sprintf: Sprintf)
    requires p.Spec? && at + size <= |f| && at < |f| && f[at] == PERCENT && 0 !in f
    requires var (o, length) := Specifier(f, at, args, k, sprintf);
             if Small(p, args, k) then Performs(o, p, args, k, sprintf) && (o.Produced? ==> length == size)
             else o == Failed
    ensures PiecePrinted(f, at, size, p, args, k, sprintf)
  {
    hide Render, Specifier, Small, Output, Accepted, IsBare, StarsOf, Behead;
    SpecifierPrints(f, at, args, k, sprintf);
  }

  /** A format that ends behind a percent sign, or behind the modifier of a bare conversion, fails there. */
  lemma CutConversionFails(pre: seq<byte>, modifier: Option<byte>, args: Args, k: nat, sprintf: Sprintf)
    requires 0 !in pre && (modifier.Some? ==> ModifierChar(modifier.value))
    ensures Render(pre + (['%' as int] + ModifierText(modifier)), |pre|, args, k, sprintf) == Rendered([], false)
  {
    hide Render, Slow;
    var t := ['%' as int] + ModifierText(modifier);
    var f := pre + t;
    assert f[|pre|] == t[0] && (modifier.Some? ==> f[|pre| + 1] == t[1]);
    assert Bare(f, |pre|).op == 0;
    SpecifierPrints(f, |pre|, args, k, sprintf);
  }
}
