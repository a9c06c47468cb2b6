/** Values shared by every component of the crawler model.

    The crawler passes products around as dictionaries; a record here is a
    map from field name to a dynamically typed `Value`. Python's `None` and
    pandas' `NaN` are both `Null`. Exceptions the source raises and catches
    become the `Err` case of `Result`. */
module Values {

  datatype Option<T> = None | Some(value: T)

  /** The exception classes the source raises or catches, by their role. */
  datatype Error = KeyError | ValueError | TypeError | ParseError | FetchError | StoreError

  datatype Result<T> = Ok(value: T) | Err(error: Error)

  /** A dictionary value: `None`/`NaN`, a string, an integer, a float, a
      boolean or a list. */
  datatype Value = Null | Str(s: string) | Int(i: int) | Real(r: real) | Bool(b: bool) | List(items: seq<Value>)

  type Record = map<string, Value>

  const ProductIdField: string := "product_id"

  /** The `product_id` of a record, `Null` when the record has none (the
      value pandas gives a missing column). */
  function IdOf(r: Record): Value {
    if ProductIdField in r then r[ProductIdField] else Null
  }

  /** The sequence of `product_id`s of a batch, in order. */
  function IdsOf(rs: seq<Record>): (ids: seq<Value>)
    ensures |ids| == |rs|
    ensures forall i :: 0 <= i < |rs| ==> ids[i] == IdOf(rs[i])
  {
    if rs == [] then [] else [IdOf(rs[0])] + IdsOf(rs[1..])
  }

  lemma IdsOfAppend(a: seq<Record>, b: seq<Record>)
    ensures IdsOf(a + b) == IdsOf(a) + IdsOf(b)
  {
  }

  predicate NoDup<T(==)>(s: seq<T>) {
    forall i, j :: 0 <= i < j < |s| ==> s[i] != s[j]
  }

  /** One step of a product's `categoryPath`: a category key and its
      display name. */
  datatype CategoryNode = CategoryNode(key: string, name: string)

  /** The keys of a category path, in order. */
  function KeysOf(path: seq<CategoryNode>): (keys: seq<string>)
    ensures |keys| == |path| && forall i :: 0 <= i < |path| ==> keys[i] == path[i].key
  {
    if path == [] then [] else [path[0].key] + KeysOf(path[1..])
  }

  // ---------------------------------------------------------------------
  // Decimal digit strings: `int(''.join(digits))` and `str(n)`.
  // ---------------------------------------------------------------------

  /** An ASCII decimal digit (the model of `str.isdigit`). */
  predicate IsDigit(c: char) { '0' <= c <= '9' }

  predicate AllDigits(s: string) { forall i :: 0 <= i < |s| ==> IsDigit(s[i]) }

  function DigitChar(d: nat): (c: char)
    requires d < 10
    ensures IsDigit(c)
  {
    ('0' as int + d) as char
  }

  /** `filter(str.isdigit, s)`: the digit characters of `s`, in order. */
  function FilterDigits(s: string): (d: string)
    ensures AllDigits(d) && |d| <= |s|
    ensures AllDigits(s) ==> d == s
  {
    if s == [] then []
    else (if IsDigit(s[0]) then [s[0]] else []) + FilterDigits(s[1..])
  }

  /** The number a non-empty digit string denotes (`int(d)`); the empty
      string has value 0 here, `int('')` itself raises. */
  function DigitsValue(d: string): nat
    requires AllDigits(d)
    decreases |d|
  {
    if d == [] then 0 else 10 * DigitsValue(d[..|d| - 1]) + (d[|d| - 1] as int - '0' as int)
  }

  /** `str(n)` for a non-negative integer: no leading zero unless `n` is 0. */
  function DecimalString(n: nat): (d: string)
    ensures AllDigits(d) && |d| > 0
    ensures (d[0] == '0') == (n == 0)
  {
    if n < 10 then [DigitChar(n)] else DecimalString(n / 10) + [DigitChar(n % 10)]
  }

  /** A digit string without its leading zeros. */
  function StripZeros(d: string): (r: string)
    ensures |r| <= |d| && r == d[|d| - |r|..]
    ensures r != [] ==> r[0] != '0'
    ensures forall i :: 0 <= i < |d| - |r| ==> d[i] == '0'
  {
    if d != [] && d[0] == '0' then StripZeros(d[1..]) else d
  }

  /** The canonical decimal spelling of a digit string: leading zeros
      removed, and "0" for a string of zeros only. */
  function CanonicalDigits(d: string): string {
    if StripZeros(d) == [] then "0" else StripZeros(d)
  }

  lemma {:induction false} DigitsValueOfPrefixed(d: string, c: char)
    requires AllDigits(d) && IsDigit(c)
    ensures AllDigits(d + [c])
    ensures DigitsValue(d + [c]) == 10 * DigitsValue(d) + (c as int - '0' as int)
  {
    assert (d + [c])[..|d|] == d;
  }

  /** `int(str(n)) == n`. */
  lemma {:induction false} DecimalStringRoundTrip(n: nat)
    ensures DigitsValue(DecimalString(n)) == n
  {
    if n >= 10 {
      DecimalStringRoundTrip(n / 10);
      DigitsValueOfPrefixed(DecimalString(n / 10), DigitChar(n % 10));
    }
  }

  /** A leading zero does not change the value of a digit string. */
  lemma {:induction false} LeadingZeroValue(d: string)
    requires AllDigits(d)
    ensures AllDigits("0" + d) && DigitsValue("0" + d) == DigitsValue(d)
    decreases |d|
  {
    if d != [] {
      var init := d[..|d| - 1];
      LeadingZeroValue(init);
      assert ("0" + d)[..|d|] == "0" + init;
    }
  }

  lemma {:induction false} StripZerosValue(d: string)
    requires AllDigits(d)
    ensures AllDigits(StripZeros(d)) && DigitsValue(StripZeros(d)) == DigitsValue(d)
    decreases |d|
  {
    if d != [] && d[0] == '0' {
      StripZerosValue(d[1..]);
      LeadingZeroValue(d[1..]);
      assert "0" + d[1..] == d;
    }
  }

  lemma {:induction false} PositiveValue(d: string)
    requires AllDigits(d) && d != [] && d[0] != '0'
    ensures DigitsValue(d) > 0
    decreases |d|
  {
    if |d| > 1 {
      PositiveValue(d[..|d| - 1]);
    }
  }

  /** `str(int(d)) == d` for a digit string without a leading zero. */
  lemma {:induction false} DecimalStringOfValue(d: string)
    requires AllDigits(d) && d != [] && d[0] != '0'
    ensures DecimalString(DigitsValue(d)) == d
    decreases |d|
  {
    if |d| > 1 {
      var init := d[..|d| - 1];
      var c := d[|d| - 1];
      DecimalStringOfValue(init);
      PositiveValue(init);
      var v := DigitsValue(init);
      var k := c as int - '0' as int;
      assert DigitsValue(d) == 10 * v + k;
      assert (10 * v + k) / 10 == v && (10 * v + k) % 10 == k;
      assert DigitChar(k) == c;
      assert init + [c] == d;
    }
  }

  /** `str(int(d))` is the canonical spelling of the digit string `d`. */
  lemma CanonicalOfValue(d: string)
    requires AllDigits(d)
    ensures DecimalString(DigitsValue(d)) == CanonicalDigits(d)
  {
    StripZerosValue(d);
    var e := StripZeros(d);
    if e != [] {
      DecimalStringOfValue(e);
    }
  }

  // ---------------------------------------------------------------------
  // String search and replacement (`in` and `str.replace`).
  // ---------------------------------------------------------------------

  predicate StartsWith(s: string, p: string) {
    |p| <= |s| && s[..|p|] == p
  }

  /** `p in s` for strings. */
  predicate Contains(s: string, p: string)
    decreases |s|
  {
    StartsWith(s, p) || (|s| > 0 && Contains(s[1..], p))
  }

  /** `s.replace(pat, rep)`: every non-overlapping occurrence of `pat`,
      scanning left to right, is replaced by `rep`. */
  function ReplaceAll(s: string, pat: string, rep: string): (r: string)
    requires |pat| > 0
    ensures !Contains(s, pat) ==> r == s
    decreases |s|
  {
    if |s| < |pat| then s
    else if s[..|pat|] == pat then rep + ReplaceAll(s[|pat|..], pat, rep)
    else [s[0]] + ReplaceAll(s[1..], pat, rep)
  }

  /** Replacing one character by another is a character-wise map. */
  lemma {:induction false} ReplaceCharAt(s: string, c: char, d: char)
    ensures |ReplaceAll(s, [c], [d])| == |s|
    ensures forall i :: 0 <= i < |s| ==>
      ReplaceAll(s, [c], [d])[i] == (if s[i] == c then d else s[i])
    decreases |s|
  {
    if |s| > 0 {
      ReplaceCharAt(s[1..], c, d);
      if s[..1] == [c] {
        assert ReplaceAll(s, [c], [d]) == [d] + ReplaceAll(s[1..], [c], [d]);
      } else {
        assert ReplaceAll(s, [c], [d]) == [s[0]] + ReplaceAll(s[1..], [c], [d]);
      }
    }
  }

  /** `str(v)` of a value; integers and strings are spelled out, every other
      value uses Python's `repr` formatting, which `repr` stands for. */
  function PyStr(v: Value, repr: Value -> string): string {
    match v
    case Str(s) => s
    case Int(i) => if i >= 0 then DecimalString(i) else "-" + DecimalString(-i)
    case _ => repr(v)
  }
}
