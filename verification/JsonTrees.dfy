/** JSON values as trees, and the children that pointer tokens select or create in them. */
module JsonTrees {
  import opened Sequences

  /** A JSON value; numbers stand for every numeric kind, and objects carry no member order. */
  datatype Json =
    | Null
    | Bool(b: bool)
    | Number(n: int)
    | Str(s: string)
    | Arr(items: seq<Json>)
    | Obj(fields: map<string, Json>)

  const EMPTY_OBJECT := Obj(map[])

  /** One past the largest value of the 64-bit unsigned index type. */
  const SIZE_LIMIT := 0x1_0000_0000_0000_0000

  predicate IsDigit(c: char) {
    '0' <= c <= '9'
  }

  function DigitValue(c: char): nat
    requires IsDigit(c)
  {
    c as int - '0' as int
  }

  function DigitCount(token: string): (n: nat)
    ensures n <= |token|
  {
    if token == [] || !IsDigit(token[0]) then 0 else 1 + DigitCount(token[1..])
  }

  function Decimal(digits: string): nat
    requires forall k :: 0 <= k < |digits| ==> IsDigit(digits[k])
  {
    if digits == [] then 0
    else 10 * Decimal(digits[..|digits| - 1]) + DigitValue(digits[|digits| - 1])
  }

  lemma {:induction false} DigitsCounted(token: string)
    ensures forall k :: 0 <= k < DigitCount(token) ==> IsDigit(token[k])
  {
    if token != [] && IsDigit(token[0]) {
      DigitsCounted(token[1..]);
      assert forall k :: 1 <= k < |token| ==> token[k] == token[1..][k - 1];
    }
  }

  /** Value and length of the longest digit prefix, unless there is none or its value does not fit. */
  function FromChars(token: string): Option<(nat, nat)> {
    DigitsCounted(token);
    var n := DigitCount(token);
    if n == 0 || Decimal(token[..n]) >= SIZE_LIMIT then None else Some((Decimal(token[..n]), n))
  }

  /** The array index a token denotes: decimal digits only, without leading zeros, in range. */
  function Index(token: string): Option<nat> {
    match FromChars(token)
    case None => None
    case Some((v, n)) =>
      if n != |token| || (|token| > 1 && token[0] == '0') then None else Some(v)
  }

  lemma {:induction false} DecimalSize(digits: string)
    requires digits != [] && (forall k :: 0 <= k < |digits| ==> IsDigit(digits[k]))
    requires |digits| > 1 ==> digits[0] != '0'
    ensures |digits| == 1 <==> Decimal(digits) < 10
  {
    var front := digits[..|digits| - 1];
    if |digits| == 2 {
      assert Decimal(front) == DigitValue(front[0]) >= 1;
    } else if |digits| > 2 {
      DecimalSize(front);
    }
  }

  /** Numbers without leading zeros that have the same value have the same digits. */
  lemma {:induction false} DecimalInjective(a: string, b: string)
    requires a != [] && (forall k :: 0 <= k < |a| ==> IsDigit(a[k])) && (|a| > 1 ==> a[0] != '0')
    requires b != [] && (forall k :: 0 <= k < |b| ==> IsDigit(b[k])) && (|b| > 1 ==> b[0] != '0')
    requires Decimal(a) == Decimal(b)
    ensures a == b
    decreases |a|
  {
    DecimalSize(a);
    DecimalSize(b);
    if |a| > 1 {
      DecimalInjective(a[..|a| - 1], b[..|b| - 1]);
      assert a == a[..|a| - 1] + [a[|a| - 1]];
      assert b == b[..|b| - 1] + [b[|b| - 1]];
    }
  }

  /** Two tokens never denote the same array index. */
  lemma IndexInjective(a: string, b: string)
    requires Index(a).Some? && Index(a) == Index(b)
    ensures a == b
  {
    DigitsCounted(a);
    DigitsCounted(b);
    assert a[..|a|] == a && b[..|b|] == b;
    DecimalInjective(a, b);
  }

  /** The decimal text of a number. */
  function Printed(n: nat): string {
    if n < 10 then [('0' as int + n) as char] else Printed(n / 10) + [('0' as int + n % 10) as char]
  }

  lemma {:induction false} PrintedIs(n: nat)
    ensures var t := Printed(n);
            && t != [] && (forall k :: 0 <= k < |t| ==> IsDigit(t[k]))
            && (n > 0 ==> t[0] != '0')
            && (|t| > 1 ==> n >= 10)
            && Decimal(t) == n
  {
    if n >= 10 {
      PrintedIs(n / 10);
      var front := Printed(n / 10);
      assert Printed(n)[..|front|] == front;
    }
  }

  lemma {:induction false} AllDigits(token: string)
    requires forall k :: 0 <= k < |token| ==> IsDigit(token[k])
    ensures DigitCount(token) == |token|
  {
    if token != [] {
      AllDigits(token[1..]);
    }
  }

  function Zeros(n: nat): string {
    seq(n, _ => '0')
  }

  lemma {:induction false} LeadingZeros(n: nat, digits: string)
    requires forall k :: 0 <= k < |digits| ==> IsDigit(digits[k])
    ensures Decimal(Zeros(n) + digits) == Decimal(digits)
  {
    var all := Zeros(n) + digits;
    if digits != [] {
      LeadingZeros(n, digits[..|digits| - 1]);
      assert all[..|all| - 1] == Zeros(n) + digits[..|digits| - 1];
    } else if n > 0 {
      LeadingZeros(n - 1, []);
      assert all[..|all| - 1] == Zeros(n - 1) + [];
    }
  }

  lemma {:induction false} CountPrefix(digits: string, rest: string)
    requires (forall k :: 0 <= k < |digits| ==> IsDigit(digits[k])) && (rest == "" || !IsDigit(rest[0]))
    ensures DigitCount(digits + rest) == |digits|
  {
    if digits == [] {
      assert digits + rest == rest;
    } else {
      CountPrefix(digits[1..], rest);
      assert (digits + rest)[1..] == digits[1..] + rest;
    }
  }

  /**
   * from_chars reads the number in front of the first character that is no digit, leading zeros
   * included; it fails where there is no digit and where the number is out of range.
   */
  lemma {:induction false} FromCharsExactly(n: nat, i: nat, rest: string)
    requires rest == "" || !IsDigit(rest[0])
    ensures FromChars(Zeros(n) + Printed(i) + rest) == if i < SIZE_LIMIT then Some((i, n + |Printed(i)|)) else None
    ensures FromChars(rest) == None
  {
    PrintedIs(i);
    var digits := Zeros(n) + Printed(i);
    CountPrefix(digits, rest);
    LeadingZeros(n, Printed(i));
    assert (digits + rest)[..|digits|] == digits;
  }

  /** A token denotes an index exactly when it is the decimal text of that number. */
  lemma {:induction false} IndexExactly(token: string, i: nat)
    ensures Index(token) == Some(i) <==> token == Printed(i) && i < SIZE_LIMIT
  {
    PrintedIs(i);
    DigitsCounted(token);
    AllDigits(Printed(i));
    assert token[..|token|] == token;
    if Index(token) == Some(i) {
      DecimalInjective(token, Printed(i));
    }
  }

  /** The child that a token selects. */
  function Lookup(node: Json, token: string): Option<Json> {
    match node
    case Obj(fields) => if token in fields then Some(fields[token]) else None
    case Arr(items) =>
      (match Index(token)
       case Some(i) => if i < |items| then Some(items[i]) else None
       case None => None)
    case _ => None
  }

  /** The node with the selected child replaced. */
  function Store(node: Json, token: string, child: Json): Json
    requires Lookup(node, token).Some?
  {
    if node.Obj? then Obj(node.fields[token := child]) else Arr(node.items[Index(token).value := child])
  }

  function Nulls(n: nat): seq<Json> {
    seq(n, _ => Null)
  }

  /**
   * The node after a missing child has been created: an empty object under a new key, null array
   * items up to the index, or an object in place of a scalar. Only a token that is no array index
   * cannot be created.
   */
  function WithSlot(node: Json, token: string): Option<Json> {
    match node
    case Obj(fields) => Some(if token in fields then node else Obj(fields[token := EMPTY_OBJECT]))
    case Arr(items) =>
      (match Index(token)
       case Some(i) => Some(if i < |items| then node else Arr(items + Nulls(i + 1 - |items|)))
       case None => None)
    case _ => Some(Obj(map[token := EMPTY_OBJECT]))
  }

  lemma StoreLaws(node: Json, token: string, child: Json, other: Json)
    requires Lookup(node, token).Some?
    ensures Lookup(Store(node, token, child), token) == Some(child)
    ensures Store(Store(node, token, child), token, other) == Store(node, token, other)
    ensures Store(node, token, Lookup(node, token).value) == node
    ensures WithSlot(node, token) == Some(node)
  {
    if node.Obj? {
      assert node.fields[token := child][token := other] == node.fields[token := other];
      assert node.fields[token := node.fields[token]] == node.fields;
    }
  }

  lemma StoreFrame(node: Json, token: string, child: Json, other: string)
    requires Lookup(node, token).Some? && other != token
    ensures Lookup(Store(node, token, child), other) == Lookup(node, other)
  {
    if node.Arr? && Index(other).Some? && Index(other) == Index(token) {
      IndexInjective(other, token);
    }
  }

  /** An array slot that comes into being as padding when the slot of another token is created. */
  predicate IsPadding(node: Json, token: string, other: string) {
    node.Arr? && Index(token).Some? && Index(other).Some? && |node.items| <= Index(other).value < Index(token).value
  }

  lemma SlotLaws(node: Json, token: string)
    requires WithSlot(node, token).Some?
    ensures var made := WithSlot(node, token).value;
            && Lookup(made, token).Some?
            && (Lookup(node, token).Some? ==> made == node)
            && (Lookup(node, token).None? ==> Lookup(made, token).value in {Null, EMPTY_OBJECT})
  {
  }

  lemma SlotFrame(node: Json, token: string, other: string)
    requires WithSlot(node, token).Some? && other != token
    ensures Lookup(WithSlot(node, token).value, other)
         == if IsPadding(node, token, other) then Some(Null) else Lookup(node, other)
  {
    if node.Arr? && Index(other).Some? && Index(other) == Index(token) {
      IndexInjective(other, token);
    }
  }
}
