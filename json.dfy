/** JavaScript values as they travel in request bodies and table items, with
    the three coercions the code relies on: truthiness (`if (!x)`, `x || d`),
    `Number(x)` and template-literal text (`${x}`). */
module Json {
  import opened Common

  /** A scalar JSON value. `Digest` stands for the string a bcrypt hash
      produces; it is kept symbolic (the salt and the key bytes that were
      hashed) so that comparing a password against it needs no
      cryptography. */
  datatype Value =
    | Str(s: string)
    | Num(n: int)
    | Bool(b: bool)
    | Digest(salt: nat, key: seq<int>)

  /** A JSON object or a table item: attribute name to value. JSON has no
      `undefined`, so an attribute not given is absent. */
  type Object = map<string, Value>

  /** An object literal as server code writes it before it is sent: a
      property may hold `undefined` (`None`). */
  type Draft = map<string, Option<Value>>

  /** The value of `o.name`; `None` is `undefined`. */
  function Field(o: Object, name: string): (v: Option<Value>)
    ensures v.Some? <==> name in o
    ensures v.Some? ==> v.value == o[name]
  {
    if name in o then Some(o[name]) else None
  }

  /** Truthiness: `undefined`, `""`, `0` and `false` are falsy. */
  predicate Truthy(v: Option<Value>) {
    match v
    case None => false
    case Some(Str(s)) => s != ""
    case Some(Num(n)) => n != 0
    case Some(Bool(b)) => b
    case Some(Digest(_, _)) => true
  }

  /** `a || b` on values. */
  function Or(a: Option<Value>, b: Value): (r: Value)
    ensures Truthy(a) ==> Some(r) == a
    ensures !Truthy(a) ==> r == b
  {
    if Truthy(a) then a.value else b
  }

  /** The base a `Number()` literal prefix selects after its leading 0:
      x for 16, o for 8, b for 2, in either case. */
  function PrefixRadix(c: char): Option<nat> {
    if c == 'x' || c == 'X' then Some(16)
    else if c == 'o' || c == 'O' then Some(8)
    else if c == 'b' || c == 'B' then Some(2)
    else None
  }

  /** A hexadecimal, octal or binary literal such as "0x1F": the prefix and
      at least one digit of that base. */
  predicate RadixLiteral(s: string) {
    && |s| > 2 && s[0] == '0' && PrefixRadix(s[1]).Some?
    && AllDigitsIn(s[2..], PrefixRadix(s[1]).value)
  }

  /** `Number(s)` on a string: `""` is 0, a string of decimal digits and a
      prefixed hexadecimal, octal or binary literal are their values,
      anything else is NaN (`None`). "Infinity" is not an integer and is
      read as NaN here (see `InfinityText`). */
  function StringToNumber(s: string): (r: Option<int>)
    ensures s == "" ==> r == Some(0)
    ensures r.Some? <==> AllDigits(s) || RadixLiteral(s)
    ensures AllDigits(s) ==> r == Some(DigitsValue(s))
    ensures RadixLiteral(s) ==> r == Some(RadixValue(s[2..], PrefixRadix(s[1]).value))
    ensures r.Some? ==> r.value >= 0
  {
    if AllDigits(s) then Some(DigitsValue(s))
    else if RadixLiteral(s) then Some(RadixValue(s[2..], PrefixRadix(s[1]).value))
    else None
  }

  /** The spellings `Number()` reads as positive infinity (leading and
      trailing white space aside). */
  predicate InfinityText(s: string) {
    s == "Infinity" || s == "+Infinity"
  }

  /** Worked examples of `Number()` on prefixed literals: each base, either
      case of the prefix and of the digits. */
  lemma RadixLiterals()
    ensures StringToNumber("0x10") == Some(16) && StringToNumber("0X1f") == Some(31)
    ensures StringToNumber("0o17") == Some(15) && StringToNumber("0b101") == Some(5)
  {
    HexLiterals();
    OctalLiteral();
    BinaryLiteral();
  }

  lemma HexLiterals()
    ensures StringToNumber("0x10") == Some(16) && StringToNumber("0X1f") == Some(31)
  {
    assert !IsDigit("0x10"[1]) && !IsDigit("0X1f"[1]);
    assert "0x10"[2..] == "10" && "0X1f"[2..] == "1f";
    assert "10"[..1] == "1" && "1f"[..1] == "1" && "1"[..0] == "";
    assert RadixValue("1", 16) == 1;
  }

  lemma OctalLiteral()
    ensures StringToNumber("0o17") == Some(15)
  {
    assert !IsDigit("0o17"[1]);
    assert "0o17"[2..] == "17";
    assert "17"[..1] == "1" && "1"[..0] == "";
    assert RadixValue("1", 8) == 1;
  }

  lemma BinaryLiteral()
    ensures StringToNumber("0b101") == Some(5)
  {
    assert !IsDigit("0b101"[1]);
    assert "0b101"[2..] == "101";
    assert "101"[..2] == "10" && "10"[..1] == "1" && "1"[..0] == "";
    assert RadixValue("1", 2) == 1;
    assert RadixValue("10", 2) == 2;
  }

  /** A prefix needs at least one digit of its own base, and "Infinity" is
      not a finite number. */
  lemma NotRadixLiterals()
    ensures StringToNumber("0x") == None && StringToNumber("0b2") == None
    ensures StringToNumber("Infinity") == None
  {
    assert !IsDigit("0x"[1]) && !IsDigit("0b2"[1]) && !IsDigit("Infinity"[0]);
    assert DigitIn("0b2"[2], 2).None?;
  }

  /** `Number(v)`; `None` is NaN. */
  function ToNumber(v: Option<Value>): Option<int> {
    match v
    case None => None
    case Some(Str(s)) => StringToNumber(s)
    case Some(Num(n)) => Some(n)
    case Some(Bool(b)) => Some(if b then 1 else 0)
    case Some(Digest(_, _)) => None
  }

  /** `${v}` inside a template literal. */
  function ToText(v: Option<Value>): string {
    match v
    case None => "undefined"
    case Some(Str(s)) => s
    case Some(Num(n)) => if n >= 0 then NatToString(n) else "-" + NatToString(-n)
    case Some(Bool(b)) => if b then "true" else "false"
    case Some(Digest(_, _)) => "[bcrypt digest]"
  }

  /** `o` with attribute `name` set to v when v is defined; otherwise the
      attribute is left out, as `JSON.stringify` leaves an undefined
      property out of a request body. */
  function SetDefined(o: Object, name: string, v: Option<Value>): (r: Object)
    ensures forall a :: Field(r, a) == if a == name && v.Some? then v else Field(o, a)
    ensures r.Keys <= o.Keys + {name}
  {
    if v.Some? then o[name := v.value] else o
  }
}
