/** The format interpreter of `FCGX_VFPrintF`: it scans a specifier optimistically, falls back to a full scan that
    rebuilds the specifier with its `*` fields filled in, and leaves the conversion itself to `sprintf`, which is a
    parameter here, as is the argument list. */
module Printf {
  import opened Bytes
  import opened Records
  import opened WriterSpec
  import W = Writer

  /** An argument, as a number and as a string. */
  datatype Arg = Arg(number: int, text: seq<byte>)

  type Args = nat -> Arg
  type Sprintf = (seq<byte>, Arg) -> seq<byte>

  const FMT_BUFFLEN := 25

  const PERCENT: byte := '%' as int
  const STAR: byte := '*' as int
  const DOT: byte := '.' as int
  const MINUS: byte := '-' as int
  const NO_MODIFIER: byte := ' ' as int

  /** The character at a position of a C string, which its terminator ends. */
  function At(f: seq<byte>, p: nat): byte {
    if p < |f| then f[p] else 0
  }

  predicate IsFlag(c: byte) {
    c == '-' as int || c == '0' as int || c == '+' as int || c == ' ' as int || c == '#' as int
  }

  predicate IsDigit(c: byte) {
    '0' as int <= c <= '9' as int
  }

  predicate IsModifier(c: byte) {
    c == 'l' as int || c == 'L' as int || c == 'h' as int
  }

  /** `strspn`. */
  function Span(f: seq<byte>, p: nat, accept: byte -> bool): (n: nat)
    requires p <= |f|
    ensures p + n <= |f| && forall i | p <= i < p + n :: accept(f[i])
    ensures p + n < |f| ==> !accept(f[p + n])
    decreases |f| - p
  {
    if p < |f| && accept(f[p]) then 1 + Span(f, p + 1, accept) else 0
  }

  /** A number in decimal, as `sprintf` writes it. */
  function Decimal(n: int): seq<byte>
    decreases n < 0, if n < 0 then -n else n
  {
    if n < 0 then [MINUS] + Decimal(-n)
    else if n < 10 then ['0' as int + n]
    else Decimal(n / 10) + ['0' as int + n % 10]
  }

  lemma {:induction false} DecimalShort(n: int, digits: nat, bound: nat)
    requires 0 <= n < bound && digits > 0 && bound == Power10(digits)
    ensures |Decimal(n)| <= digits
  {
    if n >= 10 {
      DecimalShort(n / 10, digits - 1, Power10(digits - 1));
    }
  }

  function Power10(e: nat): nat {
    if e == 0 then 1 else 10 * Power10(e - 1)
  }

  // ---------------------------------------------------------------- directives

  /** A width or a precision. */
  datatype Field = Absent | Digits(digits: seq<byte>) | FromArg(value: int)

  /** The flags, the width and the precision of a specifier. */
  datatype Head = Head(flags: seq<byte>, width: Field, dot: bool, precision: Field) {
    function Text(): seq<byte> {
      [PERCENT] + flags + FieldText(width) + if dot then [DOT] + FieldText(precision) else []
    }

    function Rebuilt(): seq<byte> {
      [PERCENT] + flags + FieldValue(width) + if dot then [DOT] + FieldValue(precision) else []
    }
  }

  /** A specifier taken apart. */
  datatype Directive = Directive(head: Head, modifier: byte, op: byte) {
    /** How the specifier reads in the format. */
    function Text(): seq<byte> {
      head.Text() + Tail()
    }

    /** How it is handed to `sprintf`. */
    function Rebuilt(): seq<byte> {
      head.Rebuilt() + Tail()
    }

    function Tail(): seq<byte> {
      (if modifier == NO_MODIFIER then [] else [modifier]) + [op]
    }
  }

  function FieldText(x: Field): seq<byte> {
    match x
    case Absent => []
    case Digits(ds) => ds
    case FromArg(_) => [STAR]
  }

  function FieldValue(x: Field): seq<byte> {
    match x
    case Absent => []
    case Digits(ds) => ds
    case FromArg(v) => Decimal(v)
  }

  /** A width or precision at `p`, with the position behind it and the next argument; None when it is too large. */
  function ScanField(f: seq<byte>, p: nat, args: Args, k: nat, negative: bool): (r: Option<(Field, nat, nat)>)
    requires p <= |f|
    ensures r.Some? ==> p <= r.value.1 <= |f| && f[p..r.value.1] == FieldText(r.value.0)
    ensures r.Some? ==> |FieldValue(r.value.0)| <= (if negative then 7 else 6)
  {
    var n := Span(f, p, IsDigit);
    if n > 6 then None
    else if n > 0 then Some((Digits(f[p..p + n]), p + n, k))
    else if At(f, p) == STAR then
      var v := if !negative && args(k).number < 0 then 0 else args(k).number;
      if v > 999999 || v < -999999 then None
      else
        assert |Decimal(v)| <= (if negative then 7 else 6) by {
          assert Power10(6) == 1000000;
          DecimalShort(if v < 0 then -v else v, 6, 1000000);
        }
        Some((FromArg(v), p + 1, k + 1))
    else Some((Absent, p, k))
  }

  /** The scan up to the modifier, with the position behind it and the next argument. */
  function ScanHead(f: seq<byte>, at: nat, args: Args, k: nat): (r: Option<(Head, nat, nat)>)
    requires at < |f| && f[at] == PERCENT
    ensures r.Some? ==> at < r.value.1 <= |f|
  {
    var n := Span(f, at + 1, IsFlag);
    if n > 5 then None
    else
      var p1 := at + 1 + n;
      match ScanField(f, p1, args, k, true)
      case None => None
      case Some((width, p2, k2)) =>
        var dot := At(f, p2) == DOT;
        match (if dot then ScanField(f, p2 + 1, args, k2, false) else Some((Absent, p2, k2)))
        case None => None
        case Some((precision, p3, k3)) => Some((Head(f[at + 1..p1], width, dot, precision), p3, k3))
  }

  /** The full scan of the specifier at `at`, with the position of the next argument. */
  function Scan(f: seq<byte>, at: nat, args: Args, k: nat): Option<(Directive, nat)>
    requires at < |f| && f[at] == PERCENT
  {
    match ScanHead(f, at, args, k)
    case None => None
    case Some((head, p, next)) =>
      if IsModifier(At(f, p)) then Some((Directive(head, At(f, p), At(f, p + 1)), next))
      else Some((Directive(head, NO_MODIFIER, At(f, p)), next))
  }

  lemma ScanHeadText(f: seq<byte>, at: nat, args: Args, k: nat)
    requires at < |f| && f[at] == PERCENT
    ensures ScanHead(f, at, args, k).Some? ==>
              var (head, p, _) := ScanHead(f, at, args, k).value;
              f[at..p] == head.Text() && |head.Rebuilt()| <= 20
  {
    hide Span, ScanField, Decimal, IsFlag, FieldText, FieldValue;
    if ScanHead(f, at, args, k).Some? {
      var (head, p3, _) := ScanHead(f, at, args, k).value;
      var p1 := at + 1 + Span(f, at + 1, IsFlag);
      var p2 := ScanField(f, p1, args, k, true).value.1;
      HeadText(f, at, p1, p2, p3, head);
      AbsentField();
      HeadLength(head);
    }
  }

  lemma AbsentField()
    ensures FieldText(Absent) == [] && FieldValue(Absent) == []
  {
  }

  lemma HeadLength(head: Head)
    requires |head.flags| <= 5 && |FieldValue(head.width)| <= 7 && |FieldValue(head.precision)| <= 6
    ensures |head.Rebuilt()| <= 20
  {
  }

  lemma HeadText(f: seq<byte>, at: nat, p1: nat, p2: nat, p3: nat, head: Head)
    requires at < p1 <= p2 <= p3 <= |f| && f[at] == PERCENT
    requires f[at + 1..p1] == head.flags && f[p1..p2] == FieldText(head.width)
    requires if head.dot then p2 < p3 && f[p2] == DOT && f[p2 + 1..p3] == FieldText(head.precision) else p3 == p2
    ensures f[at..p3] == head.Text()
  {
    hide FieldText;
    var tail := if head.dot then [DOT] + FieldText(head.precision) else [];
    assert f[p2..p3] == tail;
    Pieces(f, at, at + 1, p1);
    Pieces(f, at, p1, p2);
    Pieces(f, at, p2, p3);
    assert f[at..at + 1] == [PERCENT];
  }

  /** The rebuilt specifier and its terminator always fit the format buffer; and unless the format ends inside the
      specifier, its text is exactly what stands in the format, so the cursor stays within it. */
  lemma ScanFits(f: seq<byte>, at: nat, args: Args, k: nat)
    requires at < |f| && f[at] == PERCENT && 0 !in f
    ensures Scan(f, at, args, k).Some? ==>
              var d := Scan(f, at, args, k).value.0;
              && |d.Rebuilt()| < FMT_BUFFLEN
              && (d.op != 0 ==> at + |d.Text()| <= |f| && f[at..at + |d.Text()|] == d.Text())
  {
    hide ScanHead;
    ScanHeadText(f, at, args, k);
    if Scan(f, at, args, k).Some? {
      var d := Scan(f, at, args, k).value.0;
      var p := ScanHead(f, at, args, k).value.1;
      if d.op != 0 {
        var q := p + |d.Tail()|;
        Pieces(f, at, p, q);
        assert f[p..q] == d.Tail();
      }
    }
  }

  lemma Pieces(f: seq<byte>, a: nat, b: nat, c: nat)
    requires a <= b <= c <= |f|
    ensures f[a..c] == f[a..b] + f[b..c]
  {
  }

  // ---------------------------------------------------------------- conversions

  predicate IsInteger(op: byte) {
    op == 'd' as int || op == 'i' as int || op == 'u' as int || op == 'o' as int || op == 'x' as int || op == 'X' as int
  }

  predicate IsExponent(op: byte) {
    op == 'e' as int || op == 'E' as int || op == 'g' as int || op == 'G' as int
  }

  predicate IsCharOrPointer(op: byte) {
    op == 'c' as int || op == 'p' as int
  }

  datatype Outcome = Failed | NotPerformed | Produced(bytes: seq<byte>, next: nat)

  /** The switch over the conversions: what is written, or why nothing is. */
  function Convert(op: byte, modifier: byte, spec: seq<byte>, fast: bool, args: Args, k: nat, sprintf: Sprintf)
    : Outcome
  {
    var plain, short, long, wide :=
      modifier == NO_MODIFIER, modifier == 'h' as int, modifier == 'l' as int, modifier == 'L' as int;
    if IsInteger(op) then
      if plain || short || long then Produced(sprintf(spec, args(k)), k + 1) else Failed
    else if IsCharOrPointer(op) then
      if plain then Produced(sprintf(spec, args(k)), k + 1) else Failed
    else if op == 's' as int then
      if !plain then Failed
      else if fast then Produced(args(k).text, k + 1)
      else Produced(sprintf(spec, args(k)), k + 1)
    else if op == 'n' as int then
      if !wide then Produced([], k + 1) else Failed
    else if op == 'f' as int then
      if fast then NotPerformed
      else if plain || wide then Produced(sprintf(spec, args(k)), k + 1) else Failed
    else if IsExponent(op) then
      if plain || wide then Produced(sprintf(spec, args(k)), k + 1) else Failed
    else if op == PERCENT then
      if plain then Produced([PERCENT], k) else Failed
    else if op == 0 then Failed
    else NotPerformed
  }

  /** The conversions for which the slow path can bound its buffer. */
  predicate Bounded(op: byte, modifier: byte) {
    || IsInteger(op) || IsCharOrPointer(op) || op == 's' as int || IsExponent(op)
    || (op == 'f' as int && (modifier == NO_MODIFIER || modifier == 'L' as int))
  }

  /** A specifier without flags, width and precision. */
  function Bare(f: seq<byte>, at: nat): (d: Directive)
    requires at < |f|
  {
    var none := Head([], Absent, false, Absent);
    if IsModifier(At(f, at + 1)) then Directive(none, At(f, at + 1), At(f, at + 2))
    else Directive(none, NO_MODIFIER, At(f, at + 1))
  }

  function Fast(f: seq<byte>, at: nat, args: Args, k: nat, sprintf: Sprintf): Outcome
    requires at < |f| && f[at] == PERCENT
  {
    var d := Bare(f, at);
    Convert(d.op, d.modifier, d.Rebuilt(), true, args, k, sprintf)
  }

  /** The slow path: its outcome and the length of the specifier. */
  function Slow(f: seq<byte>, at: nat, args: Args, k: nat, sprintf: Sprintf): (Outcome, nat)
    requires at < |f| && f[at] == PERCENT
  {
    match Scan(f, at, args, k)
    case None => (Failed, 0)
    case Some((d, next)) =>
      if Bounded(d.op, d.modifier) then
        var o := Convert(d.op, d.modifier, d.Rebuilt(), false, args, next, sprintf);
        (if o.NotPerformed? then Failed else o, |d.Text()|)
      else (Failed, 0)
  }

  /** One specifier: the fast path, and the slow one where the fast one does not perform it. */
  function Specifier(f: seq<byte>, at: nat, args: Args, k: nat, sprintf: Sprintf): (r: (Outcome, nat))
    requires at < |f| && f[at] == PERCENT
  {
    var o := Fast(f, at, args, k, sprintf);
    if o.NotPerformed? then Slow(f, at, args, k, sprintf) else (o, |Bare(f, at).Text()|)
  }

  /** A specifier that is performed ends within the format. */
  lemma SpecifierFits(f: seq<byte>, at: nat, args: Args, k: nat, sprintf: Sprintf)
    requires at < |f| && f[at] == PERCENT && 0 !in f
    ensures var (o, length) := Specifier(f, at, args, k, sprintf);
            !o.NotPerformed? && (o.Produced? ==> 0 < length && at + length <= |f|)
  {
    hide Scan, Ascii;
    ScanFits(f, at, args, k);
  }

  /** The fast path is only a shortcut: whatever it hands to `sprintf`, the slow path would hand over too, for the
      same argument and the same length of specifier. */
  lemma FastIsShortcut(f: seq<byte>, at: nat, args: Args, k: nat, sprintf: Sprintf)
    requires at < |f| && f[at] == PERCENT && 0 !in f
    requires IsInteger(Bare(f, at).op) || IsCharOrPointer(Bare(f, at).op) || IsExponent(Bare(f, at).op)
    requires Fast(f, at, args, k, sprintf).Produced?
    ensures Slow(f, at, args, k, sprintf) == (Fast(f, at, args, k, sprintf), |Bare(f, at).Text()|)
  {
    var d := Bare(f, at);
    var c := At(f, at + 1);
    assert !IsFlag(c) && !IsDigit(c) && c != STAR && c != DOT;
    assert f[at + 1..at + 1] == [];
    assert Scan(f, at, args, k) == Some((d, k));
  }

  // ---------------------------------------------------------------- formats

  datatype Rendered = Rendered(bytes: seq<byte>, ok: bool)

  predicate Literal(c: byte) {
    c != PERCENT
  }

  /** The meaning of a format from position `p` on. */
  function Render(f: seq<byte>, p: nat, args: Args, k: nat, sprintf: Sprintf): Rendered
    requires p <= |f| && 0 !in f
    decreases |f| - p
  {
    if p == |f| then Rendered([], true)
    else if f[p] != PERCENT then
      var n := Span(f, p, Literal);
      var rest := Render(f, p + n, args, k, sprintf);
      Rendered(f[p..p + n] + rest.bytes, rest.ok)
    else
      SpecifierFits(f, p, args, k, sprintf);
      match Specifier(f, p, args, k, sprintf)
      case (Produced(bytes, next), length) =>
        var rest := Render(f, p + length, args, next, sprintf);
        Rendered(bytes + rest.bytes, rest.ok)
      case _ => Rendered([], false)
  }

  /** A text with every percent sign doubled. */
  function Escape(t: seq<byte>): (f: seq<byte>)
    ensures 0 !in t ==> 0 !in f
  {
    if t == [] then []
    else (if t[0] == PERCENT then [PERCENT, PERCENT] else [t[0]]) + Escape(t[1..])
  }

  lemma EscapeOne(t: seq<byte>)
    requires t != [] && Literal(t[0])
    ensures Escape(t) == [t[0]] + Escape(t[1..])
  {
  }

  /** A text in front of the next percent sign escapes to itself. */
  lemma {:induction false} EscapeLiteral(t: seq<byte>, n: nat)
    requires n <= |t| && forall i | 0 <= i < n :: Literal(t[i])
    ensures Escape(t) == t[..n] + Escape(t[n..])
  {
    hide Escape;
    if n > 0 {
      EscapeLiteral(t[1..], n - 1);
      assert t[1..][n - 1..] == t[n..];
      EscapeOne(t);
      assert t[..n] == [t[0]] + t[1..][..n - 1];
      var rest := Escape(t[n..]);
      assert [t[0]] + (t[1..][..n - 1] + rest) == t[..n] + rest;
    } else {
      assert t[n..] == t && t[..n] == [];
    }
  }

  lemma EscapeStart(t: seq<byte>)
    ensures t == [] ==> Escape(t) == []
    ensures t != [] && t[0] == PERCENT ==> Escape(t) != [] && Escape(t)[0] == PERCENT
  {
  }

  /** How far the literal part of an escaped text reaches. */
  lemma EscapedSpan(f: seq<byte>, pre: seq<byte>, t: seq<byte>)
    requires f == pre + Escape(t)
    ensures Span(f, |pre|, Literal) == Span(t, 0, Literal)
  {
    hide Escape;
    var n := Span(t, 0, Literal);
    EscapeLiteral(t, n);
    EscapeStart(t[n..]);
    SpanIs(f, |pre|, n, Literal);
  }

  lemma {:induction false} SpanIs(f: seq<byte>, p: nat, n: nat, accept: byte -> bool)
    requires p + n <= |f| && forall i | p <= i < p + n :: accept(f[i])
    requires p + n < |f| ==> !accept(f[p + n])
    ensures Span(f, p, accept) == n
    decreases n
  {
    if n > 0 {
      SpanIs(f, p + 1, n - 1, accept);
    }
  }

  /** A doubled percent sign prints one. */
  lemma PercentPrints(f: seq<byte>, p: nat, args: Args, k: nat, sprintf: Sprintf)
    requires p + 2 <= |f| && f[p] == f[p + 1] == PERCENT && 0 !in f
    ensures var rest := Render(f, p + 2, args, k, sprintf);
            Render(f, p, args, k, sprintf) == Rendered([PERCENT] + rest.bytes, rest.ok)
  {
    hide Slow;
    assert |Bare(f, p).Text()| == 2;
    assert Specifier(f, p, args, k, sprintf) == (Produced([PERCENT], k), 2);
  }

  lemma LiteralPrints(f: seq<byte>, p: nat, args: Args, k: nat, sprintf: Sprintf)
    requires p < |f| && f[p] != PERCENT && 0 !in f
    ensures var n := Span(f, p, Literal);
            var rest := Render(f, p + n, args, k, sprintf);
            Render(f, p, args, k, sprintf) == Rendered(f[p..p + n] + rest.bytes, rest.ok)
  {
    hide Specifier, Span;
  }

  lemma NothingPrints(f: seq<byte>, args: Args, k: nat, sprintf: Sprintf)
    requires 0 !in f
    ensures Render(f, |f|, args, k, sprintf) == Rendered([], true)
  {
  }

  lemma EscapeParts(t: seq<byte>)
    ensures t == [] ==> Escape(t) == []
    ensures t != [] && t[0] == PERCENT ==> Escape(t) == [PERCENT, PERCENT] + Escape(t[1..])
    ensures t != [] && t[0] != PERCENT ==>
              var n := Span(t, 0, Literal);
              0 < n && Escape(t) == t[..n] + Escape(t[n..])
  {
    if t != [] && t[0] != PERCENT {
      EscapeLiteral(t, Span(t, 0, Literal));
    }
  }

  lemma Regroup(pre: seq<byte>, head: seq<byte>, rest: seq<byte>)
    ensures pre + (head + rest) == (pre + head) + rest
    ensures (pre + (head + rest))[|pre|..|pre| + |head|] == head
    ensures forall i | 0 <= i < |head| :: (pre + (head + rest))[|pre| + i] == head[i]
  {
  }

  lemma EscapedPercent(pre: seq<byte>, t: seq<byte>, args: Args, k: nat, sprintf: Sprintf)
    requires t != [] && t[0] == PERCENT && 0 !in pre + Escape(t)
    ensures var head := [PERCENT, PERCENT];
            && pre + Escape(t) == (pre + head) + Escape(t[1..])
            && (Render(pre + Escape(t), |pre + head|, args, k, sprintf) == Rendered(t[1..], true) ==>
                  Render(pre + Escape(t), |pre|, args, k, sprintf) == Rendered(t, true))
  {
    hide Escape, Render;
    var head, f := [PERCENT, PERCENT], pre + Escape(t);
    EscapeParts(t);
    Regroup(pre, head, Escape(t[1..]));
    assert f[|pre| + 0] == head[0] && f[|pre| + 1] == head[1];
    PercentPrints(f, |pre|, args, k, sprintf);
    assert [PERCENT] + t[1..] == t;
  }

  lemma EscapedLiteral(pre: seq<byte>, t: seq<byte>, args: Args, k: nat, sprintf: Sprintf)
    requires t != [] && t[0] != PERCENT && 0 !in pre + Escape(t)
    ensures var n := Span(t, 0, Literal);
            && 0 < n && pre + Escape(t) == (pre + t[..n]) + Escape(t[n..])
            && (Render(pre + Escape(t), |pre + t[..n]|, args, k, sprintf) == Rendered(t[n..], true) ==>
                  Render(pre + Escape(t), |pre|, args, k, sprintf) == Rendered(t, true))
  {
    hide Escape, Render, Span;
    var n, f := Span(t, 0, Literal), pre + Escape(t);
    EscapeParts(t);
    EscapedSpan(f, pre, t);
    Regroup(pre, t[..n], Escape(t[n..]));
    assert f[|pre| + 0] == t[..n][0];
    LiteralPrints(f, |pre|, args, k, sprintf);
    assert t[..n] + t[n..] == t;
  }

  /** Round trip: a text with its percent signs doubled is printed as it was, whatever the arguments. */
  lemma {:induction false} EscapePrints(pre: seq<byte>, t: seq<byte>, args: Args, k: nat, sprintf: Sprintf)
    requires 0 !in pre + Escape(t)
    ensures Render(pre + Escape(t), |pre|, args, k, sprintf) == Rendered(t, true)
    decreases |t|
  {
    hide Escape, Span, Render;
    if t == [] {
      EscapeStart(t);
      NothingPrints(pre + Escape(t), args, k, sprintf);
    } else if t[0] == PERCENT {
      EscapedPercent(pre, t, args, k, sprintf);
      EscapePrints(pre + [PERCENT, PERCENT], t[1..], args, k, sprintf);
    } else {
      EscapedLiteral(pre, t, args, k, sprintf);
      EscapePrints(pre + t[..Span(t, 0, Literal)], t[Span(t, 0, Literal)..], args, k, sprintf);
    }
  }

  // ---------------------------------------------------------------- the interpreter

  /** One width or precision of the slow path, appended to the rebuilt specifier. */
  method TakeField(f: seq<byte>, p: nat, args: Args, k: nat, negative: bool, fmtBuff: seq<byte>)
    returns (ok: bool, rebuilt: seq<byte>, after: nat, next: nat)
    requires p <= |f|
    ensures ok <==> ScanField(f, p, args, k, negative).Some?
    ensures ok ==>
              var (field, q, n) := ScanField(f, p, args, k, negative).value;
              rebuilt == fmtBuff + FieldValue(field) && after == q && next == n
  {
    rebuilt, after, next := fmtBuff, p, k;
    var n := Span(f, p, IsDigit);
    if n == 0 {
      if At(f, p) == STAR {
        var v := args(k).number;
        if !negative && v < 0 {
          v := 0;
        }
        if v > 999999 || v < -999999 {
          return false, rebuilt, after, next;
        }
        rebuilt, after, next := rebuilt + Decimal(v), p + 1, k + 1;
      } else {
        assert fmtBuff + [] == fmtBuff;
      }
    } else if n <= 6 {
      rebuilt, after := rebuilt + f[p..p + n], p + n;
    } else {
      return false, rebuilt, after, next;
    }
    ok := true;
  }

  /** The slow path's scan up to the modifier, piece by piece. */
  method ScanHeadSlowly(f: seq<byte>, at: nat, args: Args, k: nat)
    returns (ok: bool, fmtBuff: seq<byte>, p: nat, next: nat)
    requires at < |f| && f[at] == PERCENT
    ensures ok <==> ScanHead(f, at, args, k).Some?
    ensures ok ==>
              var (head, q, n) := ScanHead(f, at, args, k).value;
              fmtBuff == head.Rebuilt() && p == q && next == n
  {
    hide ScanField, Decimal, IsFlag, FieldValue, Span, Head.Rebuilt;
    fmtBuff, p, next := [PERCENT], at + 1, k;
    var n := Span(f, p, IsFlag);
    if n > 5 {
      return false, fmtBuff, p, next;
    }
    ghost var flags := f[p..p + n];
    fmtBuff, p := fmtBuff + f[p..p + n], p + n;
    ghost var first := ScanField(f, p, args, k, true);
    ok, fmtBuff, p, next := TakeField(f, p, args, k, true, fmtBuff);
    if !ok {
      return;
    }
    ghost var width := first.value.0;
    if At(f, p) == DOT {
      ghost var second := ScanField(f, p + 1, args, next, false);
      ok, fmtBuff, p, next := TakeField(f, p + 1, args, next, false, fmtBuff + [DOT]);
      if ok {
        RebuiltParts(flags, width, second.value.0);
        assert ScanHead(f, at, args, k) == Some((Head(flags, width, true, second.value.0), p, next));
      }
    } else {
      RebuiltParts(flags, width, Absent);
      assert ScanHead(f, at, args, k) == Some((Head(flags, width, false, Absent), p, next));
    }
  }

  lemma RebuiltParts(flags: seq<byte>, width: Field, precision: Field)
    ensures Head(flags, width, true, precision).Rebuilt()
         == [PERCENT] + flags + FieldValue(width) + [DOT] + FieldValue(precision)
    ensures Head(flags, width, false, Absent).Rebuilt() == [PERCENT] + flags + FieldValue(width)
  {
    hide FieldValue;
    var front := [PERCENT] + flags + FieldValue(width);
    assert front + ([DOT] + FieldValue(precision)) == front + [DOT] + FieldValue(precision);
    assert front + [] == front;
  }

  /** The slow path's scan of the specifier at `at`; the rebuilt specifier fits its buffer. */
  method ScanSlowly(f: seq<byte>, at: nat, args: Args, k: nat)
    returns (ok: bool, fmtBuff: seq<byte>, modifier: byte, op: byte, specifierLength: nat, next: nat)
    requires at < |f| && f[at] == PERCENT && 0 !in f
    ensures ok <==> Scan(f, at, args, k).Some?
    ensures ok ==>
              var (d, n) := Scan(f, at, args, k).value;
              && fmtBuff == d.Rebuilt() && |fmtBuff| < FMT_BUFFLEN
              && modifier == d.modifier && op == d.op && next == n && specifierLength == |d.Text()|
  {
    hide ScanHead, Decimal;
    ScanFits(f, at, args, k);
    ScanHeadText(f, at, args, k);
    modifier, op, specifierLength := NO_MODIFIER, 0, 0;
    var p;
    ok, fmtBuff, p, next := ScanHeadSlowly(f, at, args, k);
    if !ok {
      return;
    }
    ghost var head := fmtBuff;
    if IsModifier(At(f, p)) {
      modifier := At(f, p);
      fmtBuff := fmtBuff + [modifier];
      p := p + 1;
    }
    op := At(f, p);
    fmtBuff := fmtBuff + [op];
    specifierLength := p + 1 - at;
    assert fmtBuff == head + Directive(Head([], Absent, false, Absent), modifier, op).Tail();
  }

  /** One specifier: the optimistic scan, then, if it performs nothing, the full one. The loop runs at most twice. */
  method PerformSpecifier(f: seq<byte>, at: nat, args: Args, k: nat, sprintf: Sprintf)
    returns (outcome: Outcome, specifierLength: nat)
    requires at < |f| && f[at] == PERCENT && 0 !in f
    ensures !outcome.NotPerformed?
    ensures outcome == Specifier(f, at, args, k, sprintf).0
    ensures outcome.Produced? ==> specifierLength == Specifier(f, at, args, k, sprintf).1
  {
    hide Scan, Convert, IsModifier;
    SpecifierFits(f, at, args, k, sprintf);
    var fastPath := true;
    while true
      invariant !fastPath ==> Fast(f, at, args, k, sprintf).NotPerformed?
      decreases fastPath
    {
      if fastPath {
        var d := Bare(f, at);
        specifierLength := |d.Text()|;
        outcome := Convert(d.op, d.modifier, d.Rebuilt(), true, args, k, sprintf);
      } else {
        var ok, fmtBuff, modifier, op, length, next := ScanSlowly(f, at, args, k);
        if !ok || !Bounded(op, modifier) {
          return Failed, 0;
        }
        specifierLength := length;
        outcome := Convert(op, modifier, fmtBuff, false, args, next, sprintf);
      }
      if !outcome.NotPerformed? {
        return;
      }
      if !fastPath {
        return Failed, 0;
      }
      fastPath := false;
    }
  }

  /** `FCGX_VFPrintF`. The stream receives exactly what the format means, up to the first error; the result is the
      number of bytes it received, or -1 after an error. */
  method VFPrintF(stream: W.Writer, f: seq<byte>, args: Args, sprintf: Sprintf) returns (r: int)
    requires stream.Valid() && 0 !in f
    modifies stream, stream.mBuff
    modifies stream.conn`wire, stream.conn`failures, stream.conn`errors, stream.conn`errno, stream.req`nWriters
    ensures stream.Valid() && stream.conn.failures >= old(stream.conn.failures) && r >= -1
    ensures stream.conn.failures == old(stream.conn.failures) && !old(stream.isClosed) ==>
              var rendered := Render(f, 0, args, 0, sprintf);
              var (w, rs) := PutBytes(old(stream.Abs()), rendered.bytes);
              && stream.Abs() == w && stream.conn.wire == old(stream.conn.wire) + EncodeAll(rs)
              && r == if rendered.ok then |rendered.bytes| else -1
  {
    hide Render, PutBytes, EncodeAll, Specifier, SentSoFar, After;
    ghost var whole := Render(f, 0, args, 0, sprintf);
    ghost var w0, wire0, put := stream.Abs(), stream.conn.wire, [];
    SentNothing(w0, wire0);
    RenderSteps(f, 0, args, 0, sprintf, put);
    var p, k, streamCount := 0, 0, 0;
    while p != |f|
      invariant 0 <= p <= |f| && stream.Valid() && stream.conn.failures >= old(stream.conn.failures)
      invariant streamCount == |put|
      invariant stream.conn.failures == old(stream.conn.failures) && !old(stream.isClosed) ==>
                  !stream.isClosed && SentSoFar(w0, wire0, put, stream.Abs(), stream.conn.wire)
      invariant whole == After(put, Render(f, p, args, k, sprintf))
      decreases |f| - p
    {
      var ok, bytes, next, length := NextPiece(f, p, args, k, sprintf, put);
      if !ok {
        SentAll(w0, wire0, put);
        return -1;
      }
      var sent := PutPiece(stream, bytes, w0, wire0, put);
      if sent < 0 {
        return -1;
      }
      streamCount := streamCount + sent;
      put := put + bytes;
      p, k := p + length, next;
    }
    RenderSteps(f, p, args, k, sprintf, put);
    SentAll(w0, wire0, put);
    return streamCount;
  }

  /** The next piece of output: the text up to a specifier, or what a specifier produces. */
  method NextPiece(f: seq<byte>, p: nat, args: Args, k: nat, sprintf: Sprintf, ghost put: seq<byte>)
    returns (ok: bool, bytes: seq<byte>, next: nat, length: nat)
    requires p < |f| && 0 !in f
    ensures ok ==>
              && 0 < length && p + length <= |f|
              && After(put, Render(f, p, args, k, sprintf)) ==
                 After(put + bytes, Render(f, p + length, args, next, sprintf))
    ensures !ok ==> After(put, Render(f, p, args, k, sprintf)) == Rendered(put, false)
  {
    hide Render, Specifier, After;
    RenderSteps(f, p, args, k, sprintf, put);
    var n := Span(f, p, Literal);
    if n > 0 {
      return true, f[p..p + n], k, n;
    }
    var outcome, specifierLength := PerformSpecifier(f, p, args, k, sprintf);
    SpecifierFits(f, p, args, k, sprintf);
    if outcome.Failed? {
      return false, [], k, 0;
    }
    return true, outcome.bytes, outcome.next, specifierLength;
  }

  /** Puts one piece of output, if there is any. */
  method PutPiece(stream: W.Writer, bytes: seq<byte>, ghost w0: Wr, ghost wire0: seq<byte>, ghost put: seq<byte>)
    returns (sent: int)
    requires stream.Valid() && w0.Valid()
    modifies stream, stream.mBuff
    modifies stream.conn`wire, stream.conn`failures, stream.conn`errors, stream.conn`errno, stream.req`nWriters
    ensures stream.Valid() && stream.conn.failures >= old(stream.conn.failures)
    ensures sent == |bytes| || (sent == -1 && stream.isClosed)
    ensures stream.conn.failures == old(stream.conn.failures) && !old(stream.isClosed) &&
            SentSoFar(w0, wire0, put, old(stream.Abs()), old(stream.conn.wire)) ==>
              sent == |bytes| && !stream.isClosed && SentSoFar(w0, wire0, put + bytes, stream.Abs(), stream.conn.wire)
  {
    hide PutBytes, EncodeAll;
    if bytes == [] {
      assert put + bytes == put;
      return 0;
    }
    SentMore(w0, wire0, put, stream.Abs(), stream.conn.wire, bytes);
    sent := stream.PutStr(bytes);
  }

  /** What a format means when `put` has been written and `rest` is to come. */
  function After(put: seq<byte>, rest: Rendered): Rendered {
    Rendered(put + rest.bytes, rest.ok)
  }

  /** The meaning of a format unfolds along the loop of the interpreter. */
  lemma RenderSteps(f: seq<byte>, p: nat, args: Args, k: nat, sprintf: Sprintf, put: seq<byte>)
    requires p <= |f| && 0 !in f
    ensures put == [] ==> After(put, Render(f, p, args, k, sprintf)) == Render(f, p, args, k, sprintf)
    ensures p == |f| ==> After(put, Render(f, p, args, k, sprintf)) == Rendered(put, true)
    ensures p < |f| && f[p] != PERCENT ==>
              var n := Span(f, p, Literal);
              n > 0 && After(put, Render(f, p, args, k, sprintf))
                    == After(put + f[p..p + n], Render(f, p + n, args, k, sprintf))
    ensures p < |f| && f[p] == PERCENT ==>
              var (o, length) := Specifier(f, p, args, k, sprintf);
              && Span(f, p, Literal) == 0
              && (o.Failed? ==> After(put, Render(f, p, args, k, sprintf)) == Rendered(put, false))
              && (o.Produced? && p + length <= |f| ==>
                    After(put, Render(f, p, args, k, sprintf))
                    == After(put + o.bytes, Render(f, p + length, args, o.next, sprintf)))
  {
    hide Specifier, After;
    AfterMore(put, [], Render(f, p, args, k, sprintf));
    if p < |f| && f[p] != PERCENT {
      var n := Span(f, p, Literal);
      AfterMore(put, f[p..p + n], Render(f, p + n, args, k, sprintf));
    } else if p < |f| {
      SpecifierFits(f, p, args, k, sprintf);
      var (o, length) := Specifier(f, p, args, k, sprintf);
      AfterMore(put, [], Rendered([], false));
      if o.Produced? {
        AfterMore(put, o.bytes, Render(f, p + length, args, o.next, sprintf));
      }
    }
  }

  lemma AfterMore(put: seq<byte>, bytes: seq<byte>, rest: Rendered)
    ensures After(put, Rendered(bytes + rest.bytes, rest.ok)) == After(put + bytes, rest)
    ensures put == [] ==> After(put, rest) == rest
    ensures rest.bytes == [] ==> After(put, rest) == Rendered(put, rest.ok)
  {
    assert put + (bytes + rest.bytes) == put + bytes + rest.bytes;
    assert [] + rest.bytes == rest.bytes && put + [] == put;
  }

  /** The stream has received exactly `put`. */
  ghost predicate SentSoFar(w0: Wr, wire0: seq<byte>, put: seq<byte>, w: Wr, wire: seq<byte>)
    requires w0.Valid()
  {
    w == PutBytes(w0, put).0 && wire == wire0 + EncodeAll(PutBytes(w0, put).1)
  }

  lemma SentNothing(w0: Wr, wire0: seq<byte>)
    requires w0.Valid()
    ensures SentSoFar(w0, wire0, [], w0, wire0)
  {
    W.WireUnchanged(wire0);
  }

  lemma SentAll(w0: Wr, wire0: seq<byte>, put: seq<byte>)
    requires w0.Valid()
    ensures forall w, wire | SentSoFar(w0, wire0, put, w, wire) ::
              w == PutBytes(w0, put).0 && wire == wire0 + EncodeAll(PutBytes(w0, put).1)
  {
  }

  lemma SentMore(w0: Wr, wire0: seq<byte>, put: seq<byte>, w: Wr, wire: seq<byte>, bytes: seq<byte>)
    requires w0.Valid() && w.Valid()
    ensures SentSoFar(w0, wire0, put, w, wire) ==>
              SentSoFar(w0, wire0, put + bytes, PutBytes(w, bytes).0, wire + EncodeAll(PutBytes(w, bytes).1))
  {
    hide PutBytes, EncodeAll;
    PutBytesAppend(w0, put, bytes);
    if SentSoFar(w0, wire0, put, w, wire) {
      W.WireGrows(wire0, PutBytes(w0, put).1, PutBytes(w, bytes).1);
    }
  }
}
