/**
  `JSON.stringify` on the values that audit identities are made of: strings, natural numbers, arrays and
  objects in field order. The text determines the value, so two identities share a text only when they
  are the same identity.
*/
module Json {

  datatype Json = Str(s: string) | Num(n: nat) | Arr(items: seq<Json>) | Obj(fields: seq<Member>)

  datatype Member = Member(key: string, value: Json)

  function HexDigit(n: nat): char
    requires n < 16
  {
    "0123456789abcdef"[n]
  }

  /** One character of a JSON string: quotes, backslashes and control characters are escaped. */
  function Escape(c: char): (e: string)
    ensures e != "" && e[0] != '"'
  {
    if c == '"' then "\\\""
    else if c == '\\' then "\\\\"
    else if c == '\U{08}' then "\\b"
    else if c == '\t' then "\\t"
    else if c == '\n' then "\\n"
    else if c == '\U{0C}' then "\\f"
    else if c == '\r' then "\\r"
    else if c < '\U{20}' then "\\u00" + [HexDigit(c as int / 16), HexDigit(c as int % 16)]
    else [c]
  }

  /** The rest of a string after its opening quote. */
  function StringTail(s: string): string {
    if s == "" then "\"" else Escape(s[0]) + StringTail(s[1..])
  }

  function Decimal(n: nat): (d: string)
    ensures d != "" && forall i | 0 <= i < |d| :: IsDigit(d[i])
  {
    if n < 10 then [HexDigit(n)] else Decimal(n / 10) + [HexDigit(n % 10)]
  }

  predicate IsDigit(c: char) {
    '0' <= c <= '9'
  }

  function Stringify(j: Json): string
    decreases j
  {
    match j
    case Str(s) => "\"" + StringTail(s)
    case Num(n) => Decimal(n)
    case Arr(items) => "[" + ItemsTail(items, "")
    case Obj(fields) => "{" + FieldsTail(fields, "")
  }

  function ItemsTail(items: seq<Json>, sep: string): string
    decreases items
  {
    if items == [] then "]" else sep + Stringify(items[0]) + ItemsTail(items[1..], ",")
  }

  function FieldsTail(fields: seq<Member>, sep: string): string
    decreases fields
  {
    if fields == [] then "}"
    else sep + "\"" + StringTail(fields[0].key) + ":" + Stringify(fields[0].value) + FieldsTail(fields[1..], ",")
  }

  // ---------------------------------------------------------------------------------------------
  // The text determines the value
  // ---------------------------------------------------------------------------------------------

  lemma Cancel(p: string, x: string, q: string, y: string)
    requires |p| == |q| && p + x == q + y
    ensures p == q && x == y
  {
    assert p == (p + x)[..|p|] && q == (q + y)[..|q|];
    assert x == (p + x)[|p|..] && y == (q + y)[|q|..];
  }

  lemma HexDigitInjective(m: nat, n: nat)
    requires m < 16 && n < 16 && HexDigit(m) == HexDigit(n)
    ensures m == n
  {
  }

  lemma SameEscape(c: char, d: char)
    requires Escape(c) == Escape(d)
    ensures c == d
  {
    if c < '\U{20}' && d < '\U{20}' && |Escape(c)| == 6 {
      var m, n := c as int, d as int;
      assert Escape(c)[4] == HexDigit(m / 16) && Escape(d)[4] == HexDigit(n / 16);
      assert Escape(c)[5] == HexDigit(m % 16) && Escape(d)[5] == HexDigit(n % 16);
      HexDigitInjective(m / 16, n / 16);
      HexDigitInjective(m % 16, n % 16);
    }
  }

  lemma EscapePrefixFree(c: char, d: char, x: string, y: string)
    requires Escape(c) + x == Escape(d) + y
    ensures c == d && x == y
  {
    var s, t := Escape(c) + x, Escape(d) + y;
    assert s[0] == Escape(c)[0] && t[0] == Escape(d)[0];
    assert |Escape(c)| > 1 ==> s[1] == Escape(c)[1];
    assert |Escape(d)| > 1 ==> t[1] == Escape(d)[1];
    assert |Escape(c)| == |Escape(d)|;
    Cancel(Escape(c), x, Escape(d), y);
    SameEscape(c, d);
  }

  lemma {:induction false} StringPrefixFree(s: string, t: string, x: string, y: string)
    requires StringTail(s) + x == StringTail(t) + y
    ensures s == t && x == y
    decreases |s|
  {
    hide Escape;
    StringTailStart(s);
    StringTailStart(t);
    Heads(StringTail(s), StringTail(t), x, y);
    if s == "" {
      Cancel("\"", x, "\"", y);
    } else {
      assert StringTail(s) + x == Escape(s[0]) + (StringTail(s[1..]) + x);
      assert StringTail(t) + y == Escape(t[0]) + (StringTail(t[1..]) + y);
      EscapePrefixFree(s[0], t[0], StringTail(s[1..]) + x, StringTail(t[1..]) + y);
      StringPrefixFree(s[1..], t[1..], x, y);
    }
  }

  lemma Heads(p: string, q: string, x: string, y: string)
    requires p != "" && q != "" && p + x == q + y
    ensures p[0] == q[0]
  {
    assert p[0] == (p + x)[0] && q[0] == (q + y)[0];
  }

  lemma StringTailStart(s: string)
    ensures StringTail(s) != "" && (StringTail(s)[0] == '"' <==> s == "")
  {
  }

  lemma {:induction false} DecimalInjective(m: nat, n: nat)
    requires Decimal(m) == Decimal(n)
    ensures m == n
    decreases m
  {
    var d, e := Decimal(m), Decimal(n);
    if m < 10 || n < 10 {
      assert |d| == 1 && |e| == 1;
      HexDigitInjective(m, n);
    } else {
      assert d[..|d| - 1] == Decimal(m / 10) && e[..|e| - 1] == Decimal(n / 10);
      assert d[|d| - 1] == HexDigit(m % 10) && e[|e| - 1] == HexDigit(n % 10);
      DecimalInjective(m / 10, n / 10);
      HexDigitInjective(m % 10, n % 10);
    }
  }

  /** What may follow a value: nothing that could be read as a further digit. */
  predicate Stops(x: string) {
    x == "" || !IsDigit(x[0])
  }

  lemma DigitAfter(d: string, x: string, e: string, y: string)
    requires d + x == e + y && |d| < |e|
    requires forall i | 0 <= i < |e| :: IsDigit(e[i])
    ensures !Stops(x)
  {
    assert (d + x)[|d|] == x[0] && (e + y)[|d|] == e[|d|];
  }

  lemma DecimalPrefixFree(m: nat, n: nat, x: string, y: string)
    requires Decimal(m) + x == Decimal(n) + y && Stops(x) && Stops(y)
    ensures m == n && x == y
  {
    hide Decimal;
    var d, e := Decimal(m), Decimal(n);
    DecimalDigits(m);
    DecimalDigits(n);
    if |d| < |e| {
      DigitAfter(d, x, e, y);
    } else if |e| < |d| {
      DigitAfter(e, y, d, x);
    }
    Cancel(d, x, e, y);
    DecimalInjective(m, n);
  }

  lemma DecimalDigits(n: nat)
    ensures forall i | 0 <= i < |Decimal(n)| :: IsDigit(Decimal(n)[i])
  {
  }

  /** The first character of a value tells its kind. */
  function Opening(j: Json): char {
    match j
    case Str(_) => '"'
    case Num(_) => '0'
    case Arr(_) => '['
    case Obj(_) => '{'
  }

  lemma StartsWithOpening(j: Json)
    ensures Stringify(j) != ""
    ensures if j.Num? then IsDigit(Stringify(j)[0]) else Stringify(j)[0] == Opening(j)
  {
  }

  lemma TailsStop(items: seq<Json>, fields: seq<Member>, x: string)
    ensures Stops(ItemsTail(items, ",") + x) && Stops(FieldsTail(fields, ",") + x)
    ensures ItemsTail(items, ",")[0] == (if items == [] then ']' else ',')
    ensures FieldsTail(fields, ",")[0] == (if fields == [] then '}' else ',')
  {
  }

  /** The text of a value, and where it ends, determine the value. */
  lemma {:induction false} StringifyPrefixFree(a: Json, b: Json, x: string, y: string)
    requires Stringify(a) + x == Stringify(b) + y && Stops(x) && Stops(y)
    ensures a == b && x == y
    decreases a
  {
    hide Stringify;
    StartsWithOpening(a);
    StartsWithOpening(b);
    Heads(Stringify(a), Stringify(b), x, y);
    Opened(a, x);
    Opened(b, y);
    match a {
      case Str(s) =>
        Cancel("\"", StringTail(s) + x, "\"", StringTail(b.s) + y);
        StringPrefixFree(s, b.s, x, y);
      case Num(n) =>
        DecimalPrefixFree(n, b.n, x, y);
      case Arr(items) =>
        Cancel("[", ItemsTail(items, "") + x, "[", ItemsTail(b.items, "") + y);
        ItemsPrefixFree(items, b.items, "", x, y);
      case Obj(fields) =>
        Cancel("{", FieldsTail(fields, "") + x, "{", FieldsTail(b.fields, "") + y);
        FieldsPrefixFree(fields, b.fields, "", x, y);
    }
  }

  lemma Opened(j: Json, x: string)
    ensures j.Str? ==> Stringify(j) + x == "\"" + (StringTail(j.s) + x)
    ensures j.Num? ==> Stringify(j) == Decimal(j.n)
    ensures j.Arr? ==> Stringify(j) + x == "[" + (ItemsTail(j.items, "") + x)
    ensures j.Obj? ==> Stringify(j) + x == "{" + (FieldsTail(j.fields, "") + x)
  {
  }

  lemma {:induction false} ItemsPrefixFree(a: seq<Json>, b: seq<Json>, sep: string, x: string, y: string)
    requires sep == "" || sep == ","
    requires ItemsTail(a, sep) + x == ItemsTail(b, sep) + y
    ensures a == b && x == y
    decreases a
  {
    hide Stringify;
    ItemsOpen(a, sep);
    ItemsOpen(b, sep);
    Heads(ItemsTail(a, sep), ItemsTail(b, sep), x, y);
    if a == [] {
      Cancel("]", x, "]", y);
    } else {
      var u, v := ItemsTail(a[1..], ",") + x, ItemsTail(b[1..], ",") + y;
      assert ItemsTail(a, sep) + x == sep + (Stringify(a[0]) + u);
      assert ItemsTail(b, sep) + y == sep + (Stringify(b[0]) + v);
      Cancel(sep, Stringify(a[0]) + u, sep, Stringify(b[0]) + v);
      TailsStop(a[1..], [], x);
      TailsStop(b[1..], [], y);
      StringifyPrefixFree(a[0], b[0], u, v);
      ItemsPrefixFree(a[1..], b[1..], ",", x, y);
      assert a == [a[0]] + a[1..] && b == [b[0]] + b[1..];
    }
  }

  lemma ItemsOpen(items: seq<Json>, sep: string)
    requires sep == "" || sep == ","
    ensures ItemsTail(items, sep) != "" && (ItemsTail(items, sep)[0] == ']' <==> items == [])
  {
    if items != [] { StartsWithOpening(items[0]); }
  }

  lemma {:induction false} FieldsPrefixFree(a: seq<Member>, b: seq<Member>, sep: string, x: string, y: string)
    requires sep == "" || sep == ","
    requires FieldsTail(a, sep) + x == FieldsTail(b, sep) + y
    ensures a == b && x == y
    decreases a
  {
    hide Stringify, StringTail;
    FieldsOpen(a, sep);
    FieldsOpen(b, sep);
    Heads(FieldsTail(a, sep), FieldsTail(b, sep), x, y);
    if a == [] {
      Cancel("}", x, "}", y);
    } else {
      var u, v := FieldsTail(a[1..], ",") + x, FieldsTail(b[1..], ",") + y;
      var p, q := ":" + (Stringify(a[0].value) + u), ":" + (Stringify(b[0].value) + v);
      assert FieldsTail(a, sep) + x == (sep + "\"") + (StringTail(a[0].key) + p);
      assert FieldsTail(b, sep) + y == (sep + "\"") + (StringTail(b[0].key) + q);
      Cancel(sep + "\"", StringTail(a[0].key) + p, sep + "\"", StringTail(b[0].key) + q);
      StringPrefixFree(a[0].key, b[0].key, p, q);
      Cancel(":", Stringify(a[0].value) + u, ":", Stringify(b[0].value) + v);
      TailsStop([], a[1..], x);
      TailsStop([], b[1..], y);
      StringifyPrefixFree(a[0].value, b[0].value, u, v);
      FieldsPrefixFree(a[1..], b[1..], ",", x, y);
      assert a == [a[0]] + a[1..] && b == [b[0]] + b[1..];
    }
  }

  lemma FieldsOpen(fields: seq<Member>, sep: string)
    requires sep == "" || sep == ","
    ensures FieldsTail(fields, sep) != "" && (FieldsTail(fields, sep)[0] == '}' <==> fields == [])
  {
  }

  lemma {:induction false} StringifyInjective(a: Json, b: Json)
    requires Stringify(a) == Stringify(b)
    ensures a == b
  {
    assert Stringify(a) + "" == Stringify(b) + "";
    StringifyPrefixFree(a, b, "", "");
  }
}
