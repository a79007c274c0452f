/**
 Ruby objects as the payment client sees them, and the two pieces of Ruby
 core behaviour that the client relies on for its control flow: truthiness
 (used by `||` when the client reads its options) and `String#+` (used to
 build the endpoint URL and the signed message), including the exceptions
 `String#+` raises when an operand is not a String.
 */
module Objects {

  datatype Option<+T> = None | Some(value: T)

  type byte = x: int | 0 <= x < 256

  predicate IsAscii(s: string) {
    forall i :: 0 <= i < |s| ==> s[i] as int < 128
  }

  /** `s.bytes` for a string of ASCII characters: one byte per character. */
  function AsciiBytes(s: string): (b: seq<byte>)
    requires IsAscii(s)
    ensures |b| == |s|
    ensures forall i :: 0 <= i < |s| ==> b[i] == s[i] as int
  {
    seq(|s|, i requires 0 <= i < |s| => s[i] as int)
  }

  lemma AsciiTextOfBytes(s: string)
    requires IsAscii(s)
    ensures AsciiText(AsciiBytes(s)) == s
  {
  }

  /** The ASCII string whose bytes are `b`. */
  function AsciiText(b: seq<byte>): (s: string)
    requires forall i :: 0 <= i < |b| ==> b[i] < 128
    ensures IsAscii(s) && AsciiBytes(s) == b
  {
    seq(|b|, i requires 0 <= i < |b| => b[i] as char)
  }

  /** A Ruby object. A Hash keeps its entries in insertion order. A Float is
      represented by its `to_s` rendering: the client never computes with one. */
  datatype Value =
    | Nil
    | Bool(b: bool)
    | Int(i: int)
    | Float(text: string)
    | Str(s: string)
    | Sym(name: string)
    | Array(items: seq<Value>)
    | Hash(pairs: seq<(Value, Value)>)

  /** A raw HTTP response handed back by the REST client. */
  datatype RawResponse = RawResponse(code: int, body: string)

  /** The exceptions that can travel through the client. */
  datatype Exception =
    | NoMethodError                          // the receiver has no such method (e.g. `nil + "x"`, `nil.call`)
    | TypeError                              // an argument of the wrong class (e.g. `"x" + nil`)
    | RequestFailed(response: Option<RawResponse>)  // a REST client exception; it answers `response` (possibly nil)
    | OtherError(description: string)  // any exception without a `response` method: a transport error,
                                       // or a `JSON::ParserError` from building the response in the block

  /** A value or the exception raised while computing it. */
  datatype Result<+T> = Success(value: T) | Failure(error: Exception) {
    predicate IsFailure() {
      Failure?
    }

    function PropagateFailure<U>(): Result<U>
      requires Failure?
    {
      Failure(error)
    }

    function Extract(): T
      requires Success?
    {
      value
    }
  }

  /** Ruby truthiness: everything except `nil` and `false`. */
  predicate Truthy(v: Value) {
    !(v.Nil? || v == Bool(false))
  }

  /** Ruby's `a || b`. */
  function Or(a: Value, b: Value): (r: Value)
    ensures Truthy(r) <==> Truthy(a) || Truthy(b)
    ensures r == a || r == b
    ensures Truthy(a) ==> r == a
    ensures !Truthy(a) ==> r == b
  {
    if Truthy(a) then a else b
  }

  /** `receiver + arg` where the client expects `receiver` to be a String.
      String#+ accepts only a String argument (TypeError otherwise); an
      Integer, Float or Array receiver has a `+` that rejects a String
      (TypeError); nil, true/false, a Symbol and a Hash have no `+` at all
      (NoMethodError). */
  function Concat(receiver: Value, arg: Value): (r: Result<string>)
    ensures r.Success? <==> receiver.Str? && arg.Str?
    ensures r.Success? ==> r.value == receiver.s + arg.s
    ensures receiver.Str? && !arg.Str? ==> r == Failure(TypeError)
    ensures (receiver.Nil? || receiver.Bool? || receiver.Sym? || receiver.Hash?) ==> r == Failure(NoMethodError)
    ensures (receiver.Int? || receiver.Float? || receiver.Array?) ==> r == Failure(TypeError)
  {
    match receiver
    case Str(s) => if arg.Str? then Success(s + arg.s) else Failure(TypeError)
    case Int(_) => Failure(TypeError)
    case Float(_) => Failure(TypeError)
    case Array(_) => Failure(TypeError)
    case _ => Failure(NoMethodError)
  }
}
