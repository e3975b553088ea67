/** Parameters of a content filter: how a text becomes a value of the field's type, and how
    a field of a message compares with it. */
module FilterValues {
  import opened Common
  import opened FilterSyntax

  /** Member types, by how filters treat them. Characters and octets are unsigned. */
  datatype Type = Boolean | Unsigned | Integer | Floating(long: bool) | Text | Other

  datatype Value =
    | BoolValue(b: bool)
    | UnsignedValue(n: nat)
    | SignedValue(i: int)
    | FloatValue(long: bool, r: real)
    | TextValue(s: string)

  // --------------------------------------------------------------- numerals

  function DigitValue(c: char): nat {
    if '0' <= c <= '9' then c as int - '0' as int
    else if 'a' <= c <= 'f' then c as int - 'a' as int + 10
    else if 'A' <= c <= 'F' then c as int - 'A' as int + 10
    else 16
  }

  /** All of `s`, read in `base`; None at a character that is no digit of the base. */
  function Magnitude(acc: nat, s: string, base: nat): Option<nat>
    decreases s
  {
    if s == "" then Some(acc)
    else if DigitValue(s[0]) >= base then None
    else Magnitude(acc * base + DigitValue(s[0]), s[1..], base)
  }

  /** Base 0: a leading `0x` means hexadecimal and a leading `0` octal. */
  function Unprefixed(t: string): Option<nat> {
    if |t| > 2 && t[0] == '0' && (t[1] == 'x' || t[1] == 'X') then Magnitude(0, t[2..], 16)
    else if t == "" then None
    else if t[0] == '0' then Magnitude(0, t, 8)
    else Magnitude(0, t, 10)
  }

  /** The sign and magnitude of a parameter that is a numeral to its very end. */
  function Numeric(s: string): Option<(bool, nat)> {
    var t := SkipWs(s);
    match Unprefixed(t[SignLength(t)..])
    case None => None
    case Some(m) => Some((t != "" && t[0] == '-', m))
  }

  /** `strtoull`: a negative sign wraps around. */
  function ParseUnsigned(s: string): (r: Option<nat>)
    ensures r.Some? ==> r.value <= UINT64_MAX
  {
    match Numeric(s)
    case None => None
    case Some((negative, m)) => if m > UINT64_MAX then None else Some(Signed(negative, m))
  }

  /** `strtoll`: out of range is an error. */
  function ParseSigned(s: string): (r: Option<int>)
    ensures r.Some? ==> 0 - INT64_MAX - 1 <= r.value <= INT64_MAX
  {
    match Numeric(s)
    case None => None
    case Some((negative, m)) =>
      if m > (if negative then INT64_MAX + 1 else INT64_MAX) then None
      else Some(if negative then 0 - m else m)
  }

  function Decimal(n: nat): (s: string)
    ensures s != "" && (n > 0 ==> s[0] != '0') && '0' <= s[0] <= '9'
  {
    var c := ('0' as int + n % 10) as char;
    if n < 10 then [c] else Decimal(n / 10) + [c]
  }

  lemma {:induction false} MagnitudeSnoc(acc: nat, s: string, c: char, base: nat)
    ensures Magnitude(acc, s + [c], base) ==
            match Magnitude(acc, s, base)
            case None => None
            case Some(m) => if DigitValue(c) >= base then None else Some(m * base + DigitValue(c))
    decreases s
  {
    if s == "" {
      assert s + [c] == [c];
      assert [c][1..] == "";
    } else {
      assert (s + [c])[1..] == s[1..] + [c];
      if DigitValue(s[0]) < base {
        MagnitudeSnoc(acc * base + DigitValue(s[0]), s[1..], c, base);
      }
    }
  }

  lemma {:induction false} MagnitudeOfDecimal(n: nat)
    ensures Magnitude(0, Decimal(n), 10) == Some(n)
  {
    var c := ('0' as int + n % 10) as char;
    if n < 10 {
      assert [c][1..] == "";
    } else {
      MagnitudeOfDecimal(n / 10);
      MagnitudeSnoc(0, Decimal(n / 10), c, 10);
    }
  }

  lemma UnprefixedDecimal(n: nat)
    ensures Unprefixed(Decimal(n)) == Some(n)
  {
    var d := Decimal(n);
    MagnitudeOfDecimal(n);
    if n == 0 {
      assert d == "0" && d[1..] == "" && DigitValue('0') == 0;
      assert Magnitude(0, d, 8) == Magnitude(0, "", 8);
    }
  }

  /** Every 64-bit number is the parameter its decimal digits spell, with or without sign. */
  lemma DecimalRoundTrip(n: nat)
    ensures ParseUnsigned(Decimal(n)) == if n <= UINT64_MAX then Some(n) else None
    ensures ParseSigned(Decimal(n)) == if n <= INT64_MAX then Some(n) else None
    ensures ParseSigned("-" + Decimal(n)) == if n <= INT64_MAX + 1 then Some(0 - n) else None
  {
    var d := Decimal(n);
    UnprefixedDecimal(n);
    SpacesOf("", d);
    SpacesOf("", "-" + d);
    assert "" + d == d && "" + ("-" + d) == "-" + d;
    assert ("-" + d)[1..] == d;
  }

  // ---------------------------------------------------- what numerals stand for

  lemma DigitIff(c: char, v: nat)
    requires v < 16
    ensures DigitValue(c) == v <==> c == "0123456789abcdef"[v] || c == "0123456789ABCDEF"[v]
  {
  }

  predicate InBase(d: string, base: nat) { forall i :: 0 <= i < |d| ==> DigitValue(d[i]) < base }

  /** What digits stand for, from the last one up: each place counts `base` times the next. */
  function Place(d: string, base: nat): nat {
    if d == "" then 0 else Place(d[..|d| - 1], base) * base + DigitValue(d[|d| - 1])
  }

  lemma {:induction false} MagnitudeIsPlace(d: string, base: nat)
    ensures Magnitude(0, d, base) == if InBase(d, base) then Some(Place(d, base)) else None
  {
    if d != "" {
      var front, c := d[..|d| - 1], d[|d| - 1];
      assert d == front + [c];
      MagnitudeIsPlace(front, base);
      MagnitudeSnoc(0, front, c, base);
      assert InBase(d, base) <==> InBase(front, base) && DigitValue(c) < base;
    }
  }

  /** The index of a parameter is written the same way, in base ten. */
  lemma {:induction false} ValueIsMagnitude(acc: nat, d: string)
    requires Number(d)
    ensures Magnitude(acc, d, 10) == Some(ValueFrom(acc, d))
    decreases d
  {
    if d != "" { ValueIsMagnitude(acc * 10 + DigitValue(d[0]), d[1..]); }
  }

  lemma ValueIsPlace(d: string)
    requires Number(d)
    ensures FilterSyntax.Value(d) == Place(d, 10)
  {
    ValueIsMagnitude(0, d);
    MagnitudeIsPlace(d, 10);
  }

  /** `-m` is read as the 64-bit number that m brings to zero, `m` as itself. */
  lemma SignedIs(m: nat)
    requires m <= UINT64_MAX
    ensures Signed(false, m) == m
    ensures Signed(true, m) <= UINT64_MAX && (Signed(true, m) + m) % (UINT64_MAX + 1) == 0
  {
  }

  /** A numeral without sign: hexadecimal after `0x`, octal after `0`, and decimal otherwise. */
  predicate Written(t: string, m: nat) {
    || (|t| > 2 && (t[..2] == "0x" || t[..2] == "0X") && InBase(t[2..], 16) && m == Place(t[2..], 16))
    || (t != "" && t[0] == '0' && InBase(t, 8) && m == Place(t, 8))
    || (t != "" && t[0] != '0' && InBase(t, 10) && m == Place(t, 10))
  }

  lemma UnprefixedIff(t: string, m: nat)
    ensures Unprefixed(t) == Some(m) <==> Written(t, m)
  {
    if |t| >= 2 { assert t[..2] == [t[0], t[1]]; }
    if |t| > 2 { MagnitudeIsPlace(t[2..], 16); }
    MagnitudeIsPlace(t, 8);
    MagnitudeIsPlace(t, 10);
    if |t| > 2 && (t[1] == 'x' || t[1] == 'X') { assert DigitValue(t[1]) == 16; }
  }

  /** A numeral with blanks and a sign before it. */
  predicate SignedText(s: string, w: string, sign: string, t: string, m: nat) {
    s == w + (sign + t) && Blank(w) && (sign == "" || sign == "+" || sign == "-") && Written(t, m)
  }

  lemma WrittenStarts(t: string, m: nat)
    requires Written(t, m)
    ensures t != "" && IsDigit(t[0])
  {
  }

  lemma SignOf(sign: string, t: string)
    requires (sign == "" || sign == "+" || sign == "-") && t != "" && IsDigit(t[0])
    ensures var u := sign + t; u != "" && !IsSpace(u[0]) && u[SignLength(u)..] == t && (u[0] == '-' <==> sign == "-")
  {
    if sign == "" { assert sign + t == t; } else { assert (sign + t)[1..] == t && (sign + t)[0] == sign[0]; }
  }

  lemma NumericOf(s: string, w: string, sign: string, t: string, m: nat)
    requires SignedText(s, w, sign, t, m)
    ensures Numeric(s) == Some((sign == "-", m))
  {
    UnprefixedIff(t, m);
    WrittenStarts(t, m);
    SignOf(sign, t);
    SpacesOf(w, sign + t);
  }

  lemma NumericSplits(s: string) returns (w: string, sign: string, t: string)
    requires Numeric(s).Some?
    ensures SignedText(s, w, sign, t, Numeric(s).value.1) && (Numeric(s).value.0 <==> sign == "-")
  {
    var u := SkipWs(s);
    var k := SignLength(u);
    w, sign, t := s[..Spaces(s)], u[..k], u[k..];
    Split(s, Spaces(s));
    Split(u, k);
    assert k == 1 ==> sign == [u[0]];
    UnprefixedIff(t, Numeric(s).value.1);
  }

  ghost predicate NumberText(s: string, negative: bool, m: nat) {
    exists w, sign, t :: SignedText(s, w, sign, t, m) && (negative <==> sign == "-")
  }

  lemma NumericIff(s: string, negative: bool, m: nat)
    ensures Numeric(s) == Some((negative, m)) <==> NumberText(s, negative, m)
  {
    if Numeric(s) == Some((negative, m)) { var w, sign, t := NumericSplits(s); }
    if NumberText(s, negative, m) {
      var w, sign, t :| SignedText(s, w, sign, t, m) && (negative <==> sign == "-");
      NumericOf(s, w, sign, t, m);
    }
  }

  // ------------------------------------------------------------- parameters

  function Lower(c: char): char {
    if 'A' <= c <= 'Z' then (c as int - 'A' as int + 'a' as int) as char else c
  }

  /** `strcasecmp` against a word in lower case. */
  predicate IsWord(s: string, word: string) {
    |s| == |word| && forall i :: 0 <= i < |s| ==> Lower(s[i]) == word[i]
  }

  datatype Parsed = Parsed(value: Value) | Rejected(ret: Ret)

  /** `rmw_hdds_parse_content_filter_parameter`; `strtod` reads floating-point texts. */
  function ParseParameter(t: Type, s: string, strtod: string -> Option<real>): Parsed {
    match t
    case Boolean =>
      if IsWord(s, "true") || s == "1" then Parsed(BoolValue(true))
      else if IsWord(s, "false") || s == "0" then Parsed(BoolValue(false))
      else Rejected(InvalidArgument)
    case Unsigned =>
      (match ParseUnsigned(s) case None => Rejected(InvalidArgument) case Some(n) => Parsed(UnsignedValue(n)))
    case Integer =>
      (match ParseSigned(s) case None => Rejected(InvalidArgument) case Some(i) => Parsed(SignedValue(i)))
    case Floating(long) =>
      (match strtod(s) case None => Rejected(InvalidArgument) case Some(r) => Parsed(FloatValue(long, r)))
    case Text => Parsed(TextValue(s))
    case Other => Rejected(Unsupported)
  }

  /** The parameters that stand for true and for false, letter by letter. */
  predicate BoolText(s: string, b: bool) {
    if b then
      s == "1" || (|s| == 4 && s[0] in "tT" && s[1] in "rR" && s[2] in "uU" && s[3] in "eE")
    else
      s == "0" || (|s| == 5 && s[0] in "fF" && s[1] in "aA" && s[2] in "lL" && s[3] in "sS" && s[4] in "eE")
  }

  lemma WordIff(s: string)
    ensures IsWord(s, "true") || s == "1" <==> BoolText(s, true)
    ensures IsWord(s, "false") || s == "0" <==> BoolText(s, false)
  {
  }

  /** A boolean parameter is its word in any letter case, or its digit; no other text is one. */
  lemma BooleanIff(s: string, strtod: string -> Option<real>, b: bool)
    ensures ParseParameter(Boolean, s, strtod) == Parsed(BoolValue(b)) <==> BoolText(s, b)
    ensures !BoolText(s, true) && !BoolText(s, false) ==>
              ParseParameter(Boolean, s, strtod) == Rejected(InvalidArgument)
  {
    WordIff(s);
  }

  /** A text that stands for an unsigned number: a numeral of at most 64 bits, where a minus
      counts down from 2^64. */
  ghost predicate UnsignedText(s: string, n: nat) {
    exists negative, m: nat :: NumberText(s, negative, m) && m <= UINT64_MAX
                               && n == if negative && m > 0 then UINT64_MAX + 1 - m else m
  }

  /** A text that stands for a signed number: a numeral with a sign, in the 64-bit range. */
  ghost predicate IntegerText(s: string, i: int) {
    exists negative, m: nat :: NumberText(s, negative, m) && i == (if negative then 0 - m else m)
                               && 0 - INT64_MAX - 1 <= i <= INT64_MAX
  }

  /** The unsigned parameters are exactly those texts, and nothing else is accepted. */
  lemma UnsignedIff(s: string, strtod: string -> Option<real>, n: nat)
    ensures ParseParameter(Unsigned, s, strtod) == Parsed(UnsignedValue(n)) <==> UnsignedText(s, n)
  {
    if Numeric(s).Some? { NumericIff(s, Numeric(s).value.0, Numeric(s).value.1); }
    if UnsignedText(s, n) {
      var negative, m: nat :| NumberText(s, negative, m) && m <= UINT64_MAX
                              && n == if negative && m > 0 then UINT64_MAX + 1 - m else m;
      NumericIff(s, negative, m);
    }
  }

  lemma IntegerIff(s: string, strtod: string -> Option<real>, i: int)
    ensures ParseParameter(Integer, s, strtod) == Parsed(SignedValue(i)) <==> IntegerText(s, i)
  {
    if Numeric(s).Some? { NumericIff(s, Numeric(s).value.0, Numeric(s).value.1); }
    if IntegerText(s, i) {
      var negative, m: nat :| NumberText(s, negative, m) && i == (if negative then 0 - m else m)
                              && 0 - INT64_MAX - 1 <= i <= INT64_MAX;
      NumericIff(s, negative, m);
    }
  }

  /** What cannot be read is refused: as unsupported when the member type is, else as invalid. */
  lemma RejectedIs(t: Type, s: string, strtod: string -> Option<real>)
    requires ParseParameter(t, s, strtod).Rejected?
    ensures ParseParameter(t, s, strtod).ret == if t == Other then Unsupported else InvalidArgument
    ensures t != Text
  {
  }

  /** The value is of the kind that the evaluator expects for the type. */
  predicate Fits(t: Type, v: Value) {
    match t
    case Boolean => v.BoolValue?
    case Unsigned => v.UnsignedValue?
    case Integer => v.SignedValue?
    case Floating(long) => v.FloatValue? && v.long == long
    case Text => v.TextValue?
    case Other => false
  }

  lemma ParsedFits(t: Type, s: string, strtod: string -> Option<real>)
    ensures ParseParameter(t, s, strtod).Parsed? ==> Fits(t, ParseParameter(t, s, strtod).value)
  {
  }

  // ------------------------------------------------------------- evaluation

  /** The field of a message that a filter looks at; a string may have no data. */
  datatype Field =
    | BoolField(b: bool)
    | UnsignedField(n: nat)
    | IntegerField(i: int)
    | FloatField(r: real)
    | TextField(data: Option<string>)
    | OtherField

  predicate HasType(f: Field, t: Type) {
    match t
    case Boolean => f.BoolField?
    case Unsigned => f.UnsignedField?
    case Integer => f.IntegerField?
    case Floating(_) => f.FloatField?
    case Text => f.TextField?
    case Other => f.OtherField?
  }

  predicate CompareInt(l: int, op: Op, r: int) {
    match op
    case Eq => l == r
    case Neq => l != r
    case Lt => l < r
    case Lte => l <= r
    case Gt => l > r
    case Gte => l >= r
  }

  predicate CompareReal(l: real, op: Op, r: real) {
    match op
    case Eq => l == r
    case Neq => l != r
    case Lt => l < r
    case Lte => l <= r
    case Gt => l > r
    case Gte => l >= r
  }

  function Bit(b: bool): int { if b then 1 else 0 }

  /** `strncmp(a, b, n) == 0` on two buffers of length n: it stops at a common NUL. */
  predicate SameUpToNul(a: string, b: string)
    requires |a| == |b|
  {
    a == "" || (a[0] == b[0] && (a[0] == '\0' || SameUpToNul(a[1..], b[1..])))
  }

  lemma {:induction false} SameUpToNulIsEqual(a: string, b: string)
    requires |a| == |b| && '\0' !in b
    ensures SameUpToNul(a, b) <==> a == b
  {
    if a != "" {
      SameUpToNulIsEqual(a[1..], b[1..]);
      assert a == [a[0]] + a[1..] && b == [b[0]] + b[1..];
    }
  }

  function Content(f: Field): string
    requires f.TextField?
  {
    match f.data case None => "" case Some(s) => s
  }

  /** `rmw_hdds_content_filter_matches` on an enabled filter. */
  predicate Matches(t: Type, op: Op, v: Value, f: Field)
    requires HasType(f, t)
  {
    match t
    case Boolean => v.BoolValue? && CompareInt(Bit(f.b), op, Bit(v.b))
    case Unsigned => v.UnsignedValue? && CompareInt(f.n, op, v.n)
    case Integer => v.SignedValue? && CompareInt(f.i, op, v.i)
    case Floating(long) => v.FloatValue? && v.long == long && CompareReal(f.r, op, v.r)
    case Text =>
      v.TextValue? &&
      var data := Content(f);
      var equal := |data| == |v.s| && SameUpToNul(data, v.s);
      if op == Eq then equal else op == Neq && !equal
    case Other => true
  }

  /** The meaning of a comparison: numbers by their order, texts by being the same text. */
  function FieldNumber(f: Field): real
    requires !f.TextField? && !f.OtherField?
  {
    match f
    case BoolField(b) => Bit(b) as real
    case UnsignedField(n) => n as real
    case IntegerField(i) => i as real
    case FloatField(r) => r
  }

  function ValueNumber(v: Value): real
    requires !v.TextValue?
  {
    match v
    case BoolValue(b) => Bit(b) as real
    case UnsignedValue(n) => n as real
    case SignedValue(i) => i as real
    case FloatValue(_, r) => r
  }

  predicate Meaning(op: Op, v: Value, f: Field)
    requires !f.OtherField? && (f.TextField? <==> v.TextValue?)
  {
    if f.TextField? then (op == Eq && Content(f) == v.s) || (op == Neq && Content(f) != v.s)
    else CompareReal(FieldNumber(f), op, ValueNumber(v))
  }

  lemma CompareSame(l: int, op: Op, r: int)
    ensures CompareInt(l, op, r) <==> CompareReal(l as real, op, r as real)
  {
  }

  /** A filter whose value fits its type never falls into a default: it lets a message pass
      exactly when the comparison is true. */
  lemma MatchesIsMeaning(t: Type, op: Op, v: Value, f: Field)
    requires HasType(f, t) && Fits(t, v) && (v.TextValue? ==> '\0' !in v.s)
    ensures Matches(t, op, v, f) <==> Meaning(op, v, f)
  {
    match t {
      case Boolean => CompareSame(Bit(f.b), op, Bit(v.b));
      case Unsigned => CompareSame(f.n, op, v.n);
      case Integer => CompareSame(f.i, op, v.i);
      case Floating(_) =>
      case Text => if |Content(f)| == |v.s| { SameUpToNulIsEqual(Content(f), v.s); }
    }
  }

  // ------------------------------------------------------ in terms of the texts

  /** The comparison that the characters of an operator stand for. */
  predicate Holds(o: string, l: real, r: real) {
    || ((o == "=" || o == "==") && l == r) || (o == "!=" && l != r)
    || (o == "<" && l < r) || (o == "<=" && l <= r) || (o == ">" && l > r) || (o == ">=" && l >= r)
  }

  /** Seven spellings are operators, and each compares as it reads. */
  lemma SpelledIff(o: string)
    ensures (exists op :: Spells(o, op)) <==> o in ["=", "==", "!=", "<", "<=", ">", ">="]
  {
    assert Spells("=", Eq) && Spells("==", Eq) && Spells("!=", Neq) && Spells("<", Lt);
    assert Spells("<=", Lte) && Spells(">", Gt) && Spells(">=", Gte);
  }

  lemma SpelledHolds(o: string, op: Op, l: real, r: real)
    requires Spells(o, op)
    ensures CompareReal(l, op, r) <==> Holds(o, l, r)
  {
  }

  function Number01(b: bool): real { if b then 1.0 else 0.0 }

  /** What an operator and a parameter say of a field, read from their characters alone. */
  ghost predicate SaysText(o: string, t: Type, text: string, f: Field, strtod: string -> Option<real>)
    requires HasType(f, t)
  {
    match t
    case Boolean => exists b: bool :: BoolText(text, b) && Holds(o, Number01(f.b), Number01(b))
    case Unsigned => exists n: nat :: UnsignedText(text, n) && Holds(o, f.n as real, n as real)
    case Integer => exists i: int :: IntegerText(text, i) && Holds(o, f.i as real, i as real)
    case Floating(_) => strtod(text).Some? && Holds(o, f.r, strtod(text).value)
    case Text => ((o == "=" || o == "==") && Content(f) == text) || (o == "!=" && Content(f) != text)
    case Other => false
  }

  lemma BooleanSays(o: string, op: Op, v: Value, text: string, f: Field, strtod: string -> Option<real>)
    requires f.BoolField? && Spells(o, op) && ParseParameter(Boolean, text, strtod) == Parsed(v)
    ensures Meaning(op, v, f) <==> SaysText(o, Boolean, text, f, strtod)
  {
    BooleanIff(text, strtod, true);
    BooleanIff(text, strtod, false);
    SpelledHolds(o, op, Number01(f.b), Number01(v.b));
  }

  lemma UnsignedSays(o: string, op: Op, v: Value, text: string, f: Field, strtod: string -> Option<real>)
    requires f.UnsignedField? && Spells(o, op) && ParseParameter(Unsigned, text, strtod) == Parsed(v)
    ensures Meaning(op, v, f) <==> SaysText(o, Unsigned, text, f, strtod)
  {
    UnsignedIff(text, strtod, v.n);
    SpelledHolds(o, op, f.n as real, v.n as real);
    forall n: nat | UnsignedText(text, n) ensures n == v.n { UnsignedIff(text, strtod, n); }
  }

  lemma IntegerSays(o: string, op: Op, v: Value, text: string, f: Field, strtod: string -> Option<real>)
    requires f.IntegerField? && Spells(o, op) && ParseParameter(Integer, text, strtod) == Parsed(v)
    ensures Meaning(op, v, f) <==> SaysText(o, Integer, text, f, strtod)
  {
    IntegerIff(text, strtod, v.i);
    SpelledHolds(o, op, f.i as real, v.i as real);
    forall i: int | IntegerText(text, i) ensures i == v.i { IntegerIff(text, strtod, i); }
  }

  lemma MeaningIsText(o: string, op: Op, t: Type, v: Value, text: string, f: Field, strtod: string -> Option<real>)
    requires HasType(f, t) && Spells(o, op) && ParseParameter(t, text, strtod) == Parsed(v)
    ensures Meaning(op, v, f) <==> SaysText(o, t, text, f, strtod)
  {
    match t {
      case Boolean => BooleanSays(o, op, v, text, f, strtod);
      case Unsigned => UnsignedSays(o, op, v, text, f, strtod);
      case Integer => IntegerSays(o, op, v, text, f, strtod);
      case Floating(_) => SpelledHolds(o, op, f.r, v.r);
      case Text =>
    }
  }
}
