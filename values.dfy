/**
 The values the encoder accepts, its options and its errors.

 JavaScript's dynamic `unknown` becomes a closed datatype; the runtime tests that
 `doEncode` and `encodeObject` perform (`typeof`, `Array.isArray`, `ArrayBuffer.isView`,
 the prototype test of a plain object) become constructor tests.
 */
module Values {
  import opened Bytes

  /** The largest integer a JavaScript number holds exactly (Number.MAX_SAFE_INTEGER). */
  const MAX_SAFE_INTEGER: int := 0x1F_FFFF_FFFF_FFFF

  newtype CodeUnit = x: int | 0 <= x < 0x1_0000

  /**
   A JavaScript string: its UTF-16 code units, which decide the order `keys.sort()`
   gives, and its UTF-8 bytes, which are what the encoder writes.
   */
  datatype JsString = JsString(units: seq<CodeUnit>, utf8: seq<byte>)

  /**
   A JavaScript number. `Integral(n, ...)` is a number whose mathematical value is the
   integer n (it is a safe integer only when |n| <= MAX_SAFE_INTEGER); `Fractional`
   is any other number (a fraction, NaN or an infinity). Each carries the bit patterns
   of its IEEE-754 double and single precision images, as the runtime computes them.
   */
  datatype JsNumber =
    | Integral(n: int, f64: nat, f32: nat)
    | Fractional(f64: nat, f32: nat)

  /** Number.isSafeInteger */
  predicate IsSafeInteger(x: JsNumber) {
    x.Integral? && -MAX_SAFE_INTEGER <= x.n <= MAX_SAFE_INTEGER
  }

  datatype Value =
    | Nil                          // null
    | Undefined                    // undefined
    | Bool(b: bool)
    | Num(x: JsNumber)
    | BigInt(i: int)
    | Str(s: JsString)
    | Bin(data: seq<byte>)         // any ArrayBuffer view, as its bytes
    | Arr(items: seq<Value>)       // a JavaScript array
    | Dict(entries: seq<Entry>)    // a plain object, its keys in Object.keys order
    | Other(id: nat)               // any other object; only the from_obj hook can resolve it

  datatype Entry = Entry(key: JsString, value: Value)

  /**
   What the `from_obj` hook answers for an object the encoder does not know:
   written as a map or as an array, in both cases tagged with its object type, or
   refused (the hook throws).
   */
  datatype Envelope =
    | AsDict(objectType: Value, data: seq<Entry>)
    | AsList(objectType: Value, items: seq<Value>)
    | Refused(message: string)

  /** The options after defaults are applied. */
  datatype Options = Options(
    useBigInt64: bool,
    maxDepth: int,
    initialBufferSize: nat,
    sortKeys: bool,
    forceFloat32: bool,
    ignoreUndefined: bool,
    forceIntegerToFloat: bool)

  const DEFAULT_MAX_DEPTH: int := 100
  const DEFAULT_INITIAL_BUFFER_SIZE: nat := 2048

  datatype Option<T> = None | Some(value: T)

  function GetOr<T>(o: Option<T>, default: T): T {
    match o
    case Some(v) => v
    case None => default
  }

  /** The options as a caller gives them: every field may be left out. */
  datatype EncoderOptions = EncoderOptions(
    useBigInt64: Option<bool>,
    maxDepth: Option<int>,
    initialBufferSize: Option<nat>,
    sortKeys: Option<bool>,
    forceFloat32: Option<bool>,
    ignoreUndefined: Option<bool>,
    forceIntegerToFloat: Option<bool>)

  /** The caller's control object: the extension hook and the options. */
  datatype PackCtrl = PackCtrl(fromObj: Value -> Envelope, options: EncoderOptions)

  /** The constructor's `options?.x ?? default` for every option. */
  function Resolve(given: EncoderOptions): (o: Options)
    ensures o.maxDepth == (if given.maxDepth.Some? then given.maxDepth.value else DEFAULT_MAX_DEPTH)
    ensures o.initialBufferSize ==
      (if given.initialBufferSize.Some? then given.initialBufferSize.value else DEFAULT_INITIAL_BUFFER_SIZE)
    ensures o.useBigInt64 <==> given.useBigInt64 == Some(true)
    ensures o.sortKeys <==> given.sortKeys == Some(true)
    ensures o.forceFloat32 <==> given.forceFloat32 == Some(true)
    ensures o.ignoreUndefined <==> given.ignoreUndefined == Some(true)
    ensures o.forceIntegerToFloat <==> given.forceIntegerToFloat == Some(true)
  {
    Options(
      GetOr(given.useBigInt64, false),
      GetOr(given.maxDepth, DEFAULT_MAX_DEPTH),
      GetOr(given.initialBufferSize, DEFAULT_INITIAL_BUFFER_SIZE),
      GetOr(given.sortKeys, false),
      GetOr(given.forceFloat32, false),
      GetOr(given.ignoreUndefined, false),
      GetOr(given.forceIntegerToFloat, false))
  }

  /** The exceptions the encoder throws. */
  datatype EncodeError =
    | TooDeep(depth: int)               // "Too deep objects in depth ..."
    | TooLongString(byteLength: nat)    // "Too long string: ... bytes in UTF-8"
    | TooLargeBinary(size: nat)         // "Too large binary: ..."
    | TooLargeArray(size: nat)          // "Too large array: ..."
    | TooLargeMap(size: nat)            // "Too large map object: ..."
    | HookFailed(message: string)       // whatever from_obj throws

  datatype Result<+T> = Ok(value: T) | Err(error: EncodeError) {
    predicate IsFailure() {
      Err?
    }

    function PropagateFailure<U>(): Result<U>
      requires Err?
    {
      Err(error)
    }

    function Extract(): T
      requires Ok?
    {
      value
    }
  }

  datatype Outcome = Pass | Fail(error: EncodeError) {
    predicate IsFailure() {
      Fail?
    }

    function PropagateFailure(): Outcome
      requires Fail?
    {
      this
    }
  }
}
