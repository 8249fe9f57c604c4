/** The tree all operations of the extension work on: the six-variant JSON
    value, the lookups every module shares, the decimal text of integers, the
    object-insertion loop every merge is built on, and the cursor frames used to
    model an in-place walk down a tree. */
module Json {

  const I64_MIN: int := -0x8000_0000_0000_0000
  const I64_MAX: int := 0x7FFF_FFFF_FFFF_FFFF

  /** The integers a JSON number yields through `as_i64`. */
  type I64 = n: int | I64_MIN <= n <= I64_MAX

  /** A JSON value. `Int` is a number exactly representable as a signed 64-bit
      integer; `NonInt` is any other number (a float, or an unsigned integer
      above I64_MAX): `approx` is its value as the comparator sees it and `text`
      its decimal rendering. Objects map keys to values; key order is not
      significant to any operation. */
  datatype Value =
    | Null
    | Bool(b: bool)
    | Int(i: I64)
    | NonInt(approx: real, text: string)
    | Str(s: string)
    | Arr(items: seq<Value>)
    | Obj(fields: map<string, Value>)

  datatype Option<T> = None | Some(value: T)

  /** Why a path string was rejected. */
  datatype PathSyntaxError =
    | ConsecutiveDots
    | EmptyIndex
    | BadIndex
    | UnexpectedCloseBracket
    | EmptyPath

  /** The kinds of error the operations raise; message texts are not modelled. */
  datatype Error =
    | DepthExceeded
    | PathSyntax(reason: PathSyntaxError)
    | CannotSetEmptyPath
    | TargetNotObject
    | SourceNotObject
    | UpdatesNotObject
    | UpdatesNotArray
    | FieldMissing
    | FieldNotArray
    | PathNotObject
    | MergeTargetNotObject

  datatype Result<T> = Ok(value: T) | Err(error: Error)

  /** `Value::get(key)`: a field of an object; nothing for any other kind. */
  function Get(v: Value, key: string): Option<Value>
  {
    if v.Obj? && key in v.fields then Some(v.fields[key]) else None
  }

  /** `Value::as_i64`. */
  function AsI64(v: Value): Option<int>
  {
    if v.Int? then Some(v.i as int) else None
  }

  /** The fields of an object, or none for any other value. */
  function FieldsOf(v: Value): map<string, Value>
  {
    if v.Obj? then v.fields else map[]
  }

  /** The elements of an array, or none for any other value. */
  function ItemsOf(v: Value): seq<Value>
  {
    if v.Arr? then v.items else []
  }

  /** `target` with every entry of `source` inserted: the source value wins
      on a shared key. */
  function Overlay(target: map<string, Value>, source: map<string, Value>): map<string, Value>
  {
    map k | k in target.Keys + source.Keys :: if k in source then source[k] else target[k]
  }

  /** Inserts every entry of `source` into `target`, one key at a time, as
      `Map::insert` does in a loop: the result has the keys of both, the source
      value wins on a shared key, and a key only in `target` keeps its value. */
  method InsertAll(target: map<string, Value>, source: map<string, Value>)
    returns (merged: map<string, Value>)
    ensures merged.Keys == target.Keys + source.Keys
    ensures forall k | k in source :: merged[k] == source[k]
    ensures forall k | k in target && k !in source :: merged[k] == target[k]
    ensures merged == Overlay(target, source)
  {
    merged := target;
    var pending := source.Keys;
    while pending != {}
      invariant pending <= source.Keys
      invariant merged.Keys == target.Keys + (source.Keys - pending)
      invariant forall k | k in source && k !in pending :: merged[k] == source[k]
      invariant forall k | k in target && k !in source :: merged[k] == target[k]
      invariant forall k | k in target && k in pending :: merged[k] == target[k]
      decreases pending
    {
      var k :| k in pending;
      merged := merged[k := source[k]];
      pending := pending - {k};
    }
  }

  // ---------------------------------------------------------------------
  // Decimal text of integers (Rust's `to_string` and `usize::from_str`)

  predicate IsDigit(c: char)
  {
    '0' <= c <= '9'
  }

  predicate AllDigits(s: string)
  {
    forall i | 0 <= i < |s| :: IsDigit(s[i])
  }

  function DigitChar(d: nat): char
    requires d < 10
  {
    ['0', '1', '2', '3', '4', '5', '6', '7', '8', '9'][d]
  }

  function DigitValue(c: char): nat
    requires IsDigit(c)
  {
    (c as int - '0' as int) as nat
  }

  /** The number a string of decimal digits denotes. */
  function DigitsValue(s: string): nat
    requires AllDigits(s)
  {
    if s == [] then 0 else 10 * DigitsValue(s[..|s| - 1]) + DigitValue(s[|s| - 1])
  }

  /** The shortest decimal text of a natural number. */
  function DecimalText(n: nat): (r: string)
    ensures |r| > 0
  {
    if n < 10 then [DigitChar(n)] else DecimalText(n / 10) + [DigitChar(n % 10)]
  }

  /** The decimal text of a natural number is made of digits, has no
      superfluous leading zero, and denotes that number. */
  lemma {:induction false} DecimalTextRoundTrip(n: nat)
    ensures AllDigits(DecimalText(n))
    ensures DigitsValue(DecimalText(n)) == n
    ensures |DecimalText(n)| > 1 ==> DecimalText(n)[0] != '0'
  {
    var t := DecimalText(n);
    if n < 10 {
      assert DigitValue(DigitChar(n)) == n;
    } else {
      DecimalTextRoundTrip(n / 10);
      assert t[..|t| - 1] == DecimalText(n / 10);
      assert DigitValue(DigitChar(n % 10)) == n % 10;
      assert n / 10 >= 1;
      assert |DecimalText(n / 10)| > 1 ==> DecimalText(n / 10)[0] != '0';
      assert t[0] == DecimalText(n / 10)[0];
      assert n / 10 < 10 ==> DecimalText(n / 10) == [DigitChar(n / 10)];
    }
  }

  /** The decimal text of a signed integer, with a leading '-' when negative. */
  function IntText(n: int): string
  {
    if n < 0 then "-" + DecimalText(-n) else DecimalText(n)
  }

  /** The value of a signed decimal text, the reading `IntText` is made for. */
  function SignedValue(s: string): int
  {
    if |s| > 0 && s[0] == '-' && AllDigits(s[1..]) then -(DigitsValue(s[1..]) as int)
    else if AllDigits(s) then DigitsValue(s)
    else 0
  }

  lemma IntTextRoundTrip(n: int)
    ensures SignedValue(IntText(n)) == n
  {
    if n < 0 {
      var d := DecimalText(-n);
      DecimalTextRoundTrip(-n);
      assert IntText(n) == "-" + d;
      assert ("-" + d)[1..] == d;
    } else {
      var d := DecimalText(n);
      DecimalTextRoundTrip(n);
      assert IntText(n) == d;
      assert IsDigit(d[0]);
    }
  }

  // ---------------------------------------------------------------------
  // Cursor frames: a `&mut` walk down a tree, modelled as the path of
  // containers left behind, innermost last.

  /** One step of a walk: the object (with the key descended into) or the
      array (with the index descended into) that the cursor came from. */
  datatype Frame = InObj(fields: map<string, Value>, key: string) | InArr(items: seq<Value>, index: nat)

  /** Puts a new child back into the container a frame records. */
  function Fill(f: Frame, child: Value): Value
  {
    match f
    case InObj(m, k) => Obj(m[k := child])
    case InArr(a, i) => if i < |a| then Arr(a[i := child]) else Arr(a)
  }

  /** Rebuilds the whole tree from the frames of a walk and the value now
      under the cursor. */
  function Plug(frames: seq<Frame>, v: Value): Value
    decreases |frames|
  {
    if frames == [] then v else Plug(frames[..|frames| - 1], Fill(frames[|frames| - 1], v))
  }

  lemma PlugPush(frames: seq<Frame>, f: Frame, v: Value)
    ensures Plug(frames + [f], v) == Plug(frames, Fill(f, v))
  {
    assert (frames + [f])[..|frames|] == frames;
  }
}
