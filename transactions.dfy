/**
 `Payeezy::Transactions`: the client that routes an action to its endpoint,
 prepares the caller's params in place, signs the JSON body with an
 HMAC-SHA256 Authorization header, posts it through the logging switch and
 turns what comes back into a response object; `handle_message`, which
 turns a response into text; and `json_error`, which wraps a raw reply in an
 error hash of fixed shape.

 Everything the client gets from outside is a parameter (`Environment`):
 the JSON encoder, the HMAC-SHA256 primitive, the nonce, the clock
 reading in milliseconds and the network post.
 */
module Transactions {
  import opened Objects
  import opened Hashes
  import Numerals
  import Hex
  import Base64
  import Inspection
  import Joining
  import opened Logging

  /** The action tags that carry an existing transaction's identifier in the URL. */
  const CAPTURE: Value := Str("capture")
  const VOID: Value := Str("void")
  const REFUND: Value := Str("refund")
  const SPLIT: Value := Str("split")

  const TransactionId: Value := Sym("transaction_id")
  const TransactionType: Value := Sym("transaction_type")

  predicate RequiresTransactionId(action: Value) {
    action in [CAPTURE, VOID, REFUND, SPLIT]
  }

  /** `SecureRandom.random_number *10000000000` reads as
      `random_number(*10000000000)`: an Integer in [0, 10^10). */
  type Nonce = n: int | 0 <= n < 10000000000

  /** An HMAC-SHA256 digest: 32 bytes. */
  type Digest = s: seq<byte> | |s| == 32 witness seq(32, _ => 0)

  /** `OpenSSL::HMAC.digest('sha256', key, message)` */
  type HmacSha256 = (string, string) -> Digest

  /** What the client hands to the REST client: URL, body, headers. */
  datatype Request = Request(url: Value, body: string, headers: Pairs)

  /** `Payeezy::Response.new(raw)` (the raw response may be nil) and
      `Payeezy::InternalErrorResponse.new(e)`. */
  datatype Response = Response(raw: Option<RawResponse>) | InternalErrorResponse(error: Exception)

  /** The client's collaborators. `post` stands for the whole logged block:
      the REST post and the wrapping of its result. */
  datatype Environment = Environment(
    toJson: Pairs -> string,
    hmac: HmacSha256,
    nonce: Nonce,
    timestamp: int,
    post: Request -> BlockOutcome)

  /** What `call_rest` returns, with the events of the logged transaction. */
  datatype Called = Called(response: Response, events: seq<Event>)

  /** Base64 of the lowercase hex text of a digest, as the Authorization header carries it. */
  function Signature(digest: seq<byte>): (r: string)
    ensures |r| == 4 * ((2 * |digest| + 2) / 3)
    ensures forall i :: 0 <= i < |r| ==> Base64.IsBase64Char(r[i]) || r[i] == '='
  {
    HexIsAscii(digest);
    Base64.StrictEncode64(AsciiBytes(Hex.BinToHex(digest)))
  }

  lemma HexIsAscii(digest: seq<byte>)
    ensures IsAscii(Hex.BinToHex(digest))
  {
    var hex := Hex.BinToHex(digest);
    assert forall i :: 0 <= i < |hex| ==> Hex.IsLowerHexDigit(hex[i]);
  }

  /** Reads a signature back: Base64, then ASCII hex, then bytes. */
  function SignatureDigest(auth: string): Option<seq<byte>> {
    match Base64.StrictDecode64(auth)
    case None => None
    case Some(b) =>
      if forall i :: 0 <= i < |b| ==> b[i] < 128 then Hex.HexDecode(AsciiText(b)) else None
  }

  /** The digest can be read back from its signature: no information is lost
      between the HMAC and the header. */
  lemma SignatureRoundTrip(digest: seq<byte>)
    ensures SignatureDigest(Signature(digest)) == Some(digest)
  {
    var hex := Hex.BinToHex(digest);
    HexIsAscii(digest);
    var bytes := AsciiBytes(hex);
    Base64.DecodeEncode(bytes);
    assert Base64.StrictDecode64(Signature(digest)) == Some(bytes);
    assert forall i :: 0 <= i < |bytes| ==> bytes[i] < 128;
    AsciiTextOfBytes(hex);
    Hex.HexRoundTrip(digest);
  }

  /** Helper for `SignatureFacts`: an HMAC-SHA256 signature is 88
      characters, 64 hex digits in Base64. */
  lemma SignatureLength(digest: Digest)
    ensures |Signature(digest)| == 88
  {
    assert 2 * |digest| + 2 == 66;
    assert 66 / 3 == 22;
  }

  /** What the Authorization value of an HMAC-SHA256 digest looks like, and
      that the digest can be read back from it. */
  lemma SignatureFacts(digest: Digest)
    ensures |Signature(digest)| == 88
    ensures '\n' !in Signature(digest)
    ensures forall i :: 0 <= i < 88 ==> Base64.IsBase64Char(Signature(digest)[i]) || Signature(digest)[i] == '='
    ensures SignatureDigest(Signature(digest)) == Some(digest)
  {
    SignatureLength(digest);
    SignatureRoundTrip(digest);
  }

  /** Different digests never share a signature. */
  lemma SignatureInjective(d: seq<byte>, e: seq<byte>)
    requires Signature(d) == Signature(e)
    ensures d == e
  {
    SignatureRoundTrip(d);
    SignatureRoundTrip(e);
  }

  class Transactions {
    const url: Value
    const apikey: Value
    const apisecret: Value
    const token: Value

    /** A setting looked up first under its Symbol key, then under its String key. */
    static function Setting(options: Pairs, name: string): (v: Value)
      ensures Truthy(Get(options, Sym(name))) ==> v == Get(options, Sym(name))
      ensures !Truthy(Get(options, Sym(name))) ==> v == Get(options, Str(name))
      ensures !HasKey(options, Sym(name)) && !HasKey(options, Str(name)) ==> v == Nil
    {
      Or(Get(options, Sym(name)), Get(options, Str(name)))
    }

    constructor (options: Pairs)
      ensures url == Setting(options, "url")
      ensures apikey == Setting(options, "apikey")
      ensures apisecret == Setting(options, "apisecret")
      ensures token == Setting(options, "token")
    {
      url := Setting(options, "url");
      apikey := Setting(options, "apikey");
      apisecret := Setting(options, "apisecret");
      token := Setting(options, "token");
    }

    /** The signed message: API key, nonce digits, timestamp digits, token, body. */
    function SignedMessage(nonce: int, timestamp: int, payload: string): (r: Result<string>)
      ensures r.Success? <==> apikey.Str? && token.Str?
      ensures r.Success? ==> r.value == apikey.s + Numerals.IntToS(nonce) + Numerals.IntToS(timestamp) + token.s + payload
      ensures apikey.Nil? ==> r == Failure(NoMethodError)
      ensures apikey.Str? && !token.Str? ==> r == Failure(TypeError)
      ensures (apikey.Int? || apikey.Float? || apikey.Array?) ==> r == Failure(TypeError)
    {
      var m1 :- Concat(apikey, Str(Numerals.IntToS(nonce)));
      var m2 :- Concat(Str(m1 + Numerals.IntToS(timestamp)), token);
      Success(m2 + payload)
    }

    /** `generate_hmac(nonce, current_timestamp, payload)` */
    function GenerateHmac(hmac: HmacSha256, nonce: int, timestamp: int, payload: string): (r: Result<string>)
      ensures r.Success? <==> apikey.Str? && token.Str? && apisecret.Str?
      ensures r.Success? ==>
        && |r.value| == 88
        && '\n' !in r.value
        && (forall i :: 0 <= i < |r.value| ==> Base64.IsBase64Char(r.value[i]) || r.value[i] == '=')
        && SignatureDigest(r.value)
             == Some(hmac(apisecret.s, apikey.s + Numerals.IntToS(nonce) + Numerals.IntToS(timestamp) + token.s + payload))
      ensures r.Failure? ==>
        r.error == TypeError || (r.error == NoMethodError && (apikey.Nil? || apikey.Bool? || apikey.Sym? || apikey.Hash?))
    {
      match SignedMessage(nonce, timestamp, payload)
      case Failure(e) => Failure(e)
      case Success(message) =>
      if apisecret.Str? then
        var digest := hmac(apisecret.s, message);
        SignatureFacts(digest);
        Success(Signature(digest))
      else
        Failure(TypeError)
    }

    /** `headers(payload)`, with the nonce and the clock reading given. */
    function Headers(hmac: HmacSha256, nonce: int, timestamp: int, payload: string): (r: Result<Pairs>)
      ensures r.Success? <==> apikey.Str? && token.Str? && apisecret.Str?
      ensures r.Failure? ==> GenerateHmac(hmac, nonce, timestamp, payload) == Failure(r.error)
      ensures r.Success? ==> UniqueKeys(r.value)
      ensures r.Success? ==>
        Keys(r.value) == [Str("Content-Type"), Str("apikey"), Str("token"), Str("nonce"), Str("timestamp"), Str("Authorization")]
      ensures r.Success? ==> Get(r.value, Str("Content-Type")) == Str("application/json")
      ensures r.Success? ==> Get(r.value, Str("apikey")) == apikey && Get(r.value, Str("token")) == token
      ensures r.Success? ==> Get(r.value, Str("nonce")) == Int(nonce) && Get(r.value, Str("timestamp")) == Int(timestamp)
      ensures r.Success? ==>
        && Get(r.value, Str("Authorization")).Str?
        && SignatureDigest(Get(r.value, Str("Authorization")).s)
             == Some(hmac(apisecret.s, apikey.s + Numerals.IntToS(nonce) + Numerals.IntToS(timestamp) + token.s + payload))
    {
      var signed := GenerateHmac(hmac, nonce, timestamp, payload);
      if signed.Failure? then Failure(signed.error)
      else Success(HeaderPairs(apikey, token, Int(nonce), Int(timestamp), Str(signed.value)))
    }

    /** The header hash literal: six distinct names, each reading back its value. */
    static function HeaderPairs(apikey: Value, token: Value, nonce: Value, timestamp: Value, authorization: Value): (h: Pairs)
      ensures UniqueKeys(h)
      ensures Keys(h) == [Str("Content-Type"), Str("apikey"), Str("token"), Str("nonce"), Str("timestamp"), Str("Authorization")]
      ensures Get(h, Str("Content-Type")) == Str("application/json")
      ensures Get(h, Str("apikey")) == apikey
      ensures Get(h, Str("token")) == token
      ensures Get(h, Str("nonce")) == nonce
      ensures Get(h, Str("timestamp")) == timestamp
      ensures Get(h, Str("Authorization")) == authorization
    {
      var h := [(Str("Content-Type"), Str("application/json")), (Str("apikey"), apikey), (Str("token"), token),
                (Str("nonce"), nonce), (Str("timestamp"), timestamp), (Str("Authorization"), authorization)];
      HeaderKeys(apikey, token, nonce, timestamp, authorization);
      GetAt(h, 0); GetAt(h, 1); GetAt(h, 2); GetAt(h, 3); GetAt(h, 4); GetAt(h, 5);
      h
    }

    static lemma HeaderKeys(apikey: Value, token: Value, nonce: Value, timestamp: Value, authorization: Value)
      ensures var h := [(Str("Content-Type"), Str("application/json")), (Str("apikey"), apikey), (Str("token"), token),
                        (Str("nonce"), nonce), (Str("timestamp"), timestamp), (Str("Authorization"), authorization)];
        && UniqueKeys(h)
        && Keys(h) == [Str("Content-Type"), Str("apikey"), Str("token"), Str("nonce"), Str("timestamp"), Str("Authorization")]
    {
      var h := [(Str("Content-Type"), Str("application/json")), (Str("apikey"), apikey), (Str("token"), token),
                (Str("nonce"), nonce), (Str("timestamp"), timestamp), (Str("Authorization"), authorization)];
      var names := [Str("Content-Type"), Str("apikey"), Str("token"), Str("nonce"), Str("timestamp"), Str("Authorization")];
      assert forall i :: 0 <= i < 6 ==> h[i].0 == names[i];
      forall i | 0 <= i < 6 ensures Keys(h)[i] == names[i] {
        KeysAt(h, i);
      }
    }

    /** In a hash with unique keys, `h[k]` is the value stored beside `k`. */
    static lemma {:induction false} GetAt(h: Pairs, i: int)
      requires 0 <= i < |h| && UniqueKeys(h)
      ensures Get(h, h[i].0) == h[i].1
    {
      if i > 0 {
        UniqueKeysTail(h);
        assert h[1..][i - 1] == h[i];
        GetAt(h[1..], i - 1);
      }
    }

    /** The URL `commit` posts to: the base URL, followed by "/" and the
        transaction identifier for the actions that need one. */
    function RouteUrl(action: Value, params: Pairs): (r: Result<Value>)
      ensures !RequiresTransactionId(action) ==> r == Success(url)
      ensures RequiresTransactionId(action) ==>
        (r.Success? <==> url.Str? && Get(params, TransactionId).Str?)
      ensures RequiresTransactionId(action) && r.Success? ==>
        r.value == Str(url.s + "/" + Get(params, TransactionId).s)
      ensures RequiresTransactionId(action) && url.Str? && !HasKey(params, TransactionId) ==>
        r == Failure(TypeError)
      ensures RequiresTransactionId(action) && url.Nil? ==> r == Failure(NoMethodError)
    {
      if RequiresTransactionId(action) then
        var base :- Concat(url, Str("/"));
        var full :- Concat(Str(base), Get(params, TransactionId));
        Success(Str(full))
      else
        Success(url)
    }

    /** The params after `commit` changed them: the transaction identifier
        taken out for the actions that put it in the URL, and the action
        stored under `transaction_type`. */
    static function PreparedParams(action: Value, params: Pairs): (r: Pairs)
      ensures Get(r, TransactionType) == action
      ensures RequiresTransactionId(action) ==> !HasKey(r, TransactionId)
      ensures !RequiresTransactionId(action) || !HasKey(params, TransactionId) ==>
        Keys(r) == if HasKey(params, TransactionType) then Keys(params) else Keys(params) + [TransactionType]
      ensures RequiresTransactionId(action) && UniqueKeys(params) ==>
        forall i :: 0 <= i < |params| && params[i].0 == TransactionId ==>
          var kept := params[..i] + params[i + 1..];
          Keys(r) == if HasKey(params, TransactionType) then Keys(kept) else Keys(kept) + [TransactionType]
      ensures forall k :: k != TransactionType && (k != TransactionId || !RequiresTransactionId(action)) ==>
        (HasKey(r, k) <==> HasKey(params, k)) && Get(r, k) == Get(params, k)
      ensures UniqueKeys(params) ==> UniqueKeys(r)
    {
      var kept := if RequiresTransactionId(action) then Deleted(params, TransactionId) else params;
      Stored(kept, TransactionType, action)
    }

    /** `call_rest(url, data, headers)`: the post runs inside the logged
        transaction; an exception that escapes it, from the post or from the
        logging proc, becomes a response built from its `response` when it
        answers one, and an internal error otherwise. */
    static function CallRest(url: Value, data: string, headers: Pairs,
                             post: Request -> BlockOutcome, logging: TransactionLogging): (r: Called)
      reads logging
      ensures var outcome := post(Request(url, data, headers));
        && BlockRuns(r.events) == 1
        && ProcCalls(r.events)
             == (if logging.logTransactionTime && logging.loggingProc.Some? && outcome.Returned? then 1 else 0)
        && (outcome.Returned? && !logging.logTransactionTime ==> r.response == Response(Some(outcome.raw)))
        && (outcome.Returned? && logging.logTransactionTime && logging.loggingProc.None? ==>
              r.response == InternalErrorResponse(NoMethodError))
        && (outcome.Returned? && logging.logTransactionTime && logging.loggingProc.Some? ==>
              var raised := logging.loggingProc.value.raises;
              && (raised.None? ==> r.response == Response(Some(outcome.raw)))
              && (raised.Some? && raised.value.RequestFailed? ==> r.response == Response(raised.value.response))
              && (raised.Some? && !raised.value.RequestFailed? ==> r.response == InternalErrorResponse(raised.value)))
        && (outcome.Raised? && outcome.error.RequestFailed? ==>
              r.response == Response(outcome.error.response))
        && (outcome.Raised? && !outcome.error.RequestFailed? ==>
              r.response == InternalErrorResponse(outcome.error))
    {
      var outcome := post(Request(url, data, headers));
      var logged := logging.DoLoggedTransaction(url, outcome);
      match logged.raised
      case None => Called(Response(Some(outcome.raw)), logged.events)
      case Some(e) =>
        Called(if e.RequestFailed? then Response(e.response) else InternalErrorResponse(e), logged.events)
    }

    /** `commit(action, params)`: `params` is the caller's hash and is
        changed in place before the request is signed and sent. `sent` is
        the request handed to the REST client, if one was. */
    method Commit(action: Value, params: HashObject, env: Environment, logging: TransactionLogging)
      returns (r: Result<Response>, sent: Option<Request>, events: seq<Event>)
      requires params.Valid()
      modifies params
      ensures params.Valid()
      ensures var route := RouteUrl(action, old(params.pairs));
        route.Failure? ==>
          r == Failure(route.error) && sent == None && events == [] && params.pairs == old(params.pairs)
      ensures RouteUrl(action, old(params.pairs)).Success? ==>
        params.pairs == PreparedParams(action, old(params.pairs))
      ensures var route := RouteUrl(action, old(params.pairs));
        var body := env.toJson(params.pairs);
        var headers := Headers(env.hmac, env.nonce, env.timestamp, body);
        route.Success? && headers.Failure? ==>
          r == Failure(headers.error) && sent == None && events == []
      ensures var route := RouteUrl(action, old(params.pairs));
        var body := env.toJson(params.pairs);
        var headers := Headers(env.hmac, env.nonce, env.timestamp, body);
        route.Success? && headers.Success? ==>
          && sent == Some(Request(route.value, body, headers.value))
          && r == Success(CallRest(route.value, body, headers.value, env.post, logging).response)
          && events == CallRest(route.value, body, headers.value, env.post, logging).events
    {
      var route := RouteUrl(action, params.pairs);
      if route.Failure? {
        return Failure(route.error), None, [];
      }
      if RequiresTransactionId(action) {
        var _ := params.Delete(TransactionId);
      }
      params.Store(TransactionType, action);
      var body := env.toJson(params.pairs);
      var headers := Headers(env.hmac, env.nonce, env.timestamp, body);
      if headers.Failure? {
        return Failure(headers.error), None, [];
      }
      var request := Request(route.value, body, headers.value);
      var called := CallRest(request.url, request.body, request.headers, env.post, logging);
      r, sent, events := Success(called.response), Some(request), called.events;
    }

    /** `transact(action, payload)` is `commit`. */
    method Transact(action: Value, payload: HashObject, env: Environment, logging: TransactionLogging)
      returns (r: Result<Response>, sent: Option<Request>, events: seq<Event>)
      requires payload.Valid()
      modifies payload
      ensures payload.Valid()
      ensures var route := RouteUrl(action, old(payload.pairs));
        route.Failure? ==>
          r == Failure(route.error) && sent == None && events == [] && payload.pairs == old(payload.pairs)
      ensures RouteUrl(action, old(payload.pairs)).Success? ==>
        payload.pairs == PreparedParams(action, old(payload.pairs))
      ensures var route := RouteUrl(action, old(payload.pairs));
        var body := env.toJson(payload.pairs);
        var headers := Headers(env.hmac, env.nonce, env.timestamp, body);
        route.Success? && headers.Failure? ==>
          r == Failure(headers.error) && sent == None && events == []
      ensures var route := RouteUrl(action, old(payload.pairs));
        var body := env.toJson(payload.pairs);
        var headers := Headers(env.hmac, env.nonce, env.timestamp, body);
        route.Success? && headers.Success? ==>
          && sent == Some(Request(route.value, body, headers.value))
          && r == Success(CallRest(route.value, body, headers.value, env.post, logging).response)
          && events == CallRest(route.value, body, headers.value, env.post, logging).events
    {
      r, sent, events := Commit(action, payload, env, logging);
    }

    /** What the block `{ |_, messages| messages }` binds for one element of an
        Array: its second item when it is an Array of two or more, else nil. */
    static function SecondItem(v: Value): (m: Value)
      ensures v.Array? && |v.items| >= 2 ==> m == v.items[1]
      ensures !(v.Array? && |v.items| >= 2) ==> m == Nil
    {
      if v.Array? && |v.items| >= 2 then v.items[1] else Nil
    }

    /** `error.map { |_, messages| messages }`; only Hash and Array answer `map`. */
    static function ErrorMessages(error: Value): (r: Result<seq<Value>>)
      ensures error.Hash? ==> r == Success(Values(error.pairs))
      ensures error.Array? ==>
        r.Success? && |r.value| == |error.items|
        && forall i :: 0 <= i < |error.items| ==> r.value[i] == SecondItem(error.items[i])
      ensures !error.Hash? && !error.Array? ==> r == Failure(NoMethodError)
    {
      match error
      case Hash(pairs) => Success(Values(pairs))
      case Array(items) => Success(seq(|items|, i requires 0 <= i < |items| => SecondItem(items[i])))
      case _ => Failure(NoMethodError)
    }

    /** `handle_message(response, success)` */
    static function HandleMessage(response: Pairs, success: bool): (r: Result<Value>)
      ensures success ==> r == Success(Get(response, Str("transaction_status")))
      ensures !success && HasKey(response, Str("Error")) ==>
        (r.Success? <==> Get(response, Str("Error")).Hash? || Get(response, Str("Error")).Array?)
      ensures !success && HasKey(response, Str("Error")) && r.Success? ==>
        r.value == Str(Joining.Join(ErrorMessages(Get(response, Str("Error"))).value, ". "))
      ensures !success && !HasKey(response, Str("Error")) ==>
        r == Success(Str(Inspection.Inspect(Hash(response))))
      ensures !success && r.Failure? ==> r.error == NoMethodError
    {
      if success then Success(Get(response, Str("transaction_status")))
      else if HasKey(response, Str("Error")) then
        var messages :- ErrorMessages(Get(response, Str("Error")));
        Success(Str(Joining.Join(messages, ". ")))
      else Success(Str(Inspection.Inspect(Hash(response))))
    }

    /** A failed response whose 'Error' hash holds text messages yields those
        messages joined so that each one can be read back, in order, as long as
        none contains the separator itself. */
    static lemma ErrorMessagesRecovered(response: Pairs, messages: seq<string>)
      requires Get(response, Str("Error")).Hash?
      requires Values(Get(response, Str("Error")).pairs) == Joining.Strs(messages)
      requires |messages| >= 1
      requires forall i :: 0 <= i < |messages| ==> !Joining.ContainsSeparator(messages[i])
      ensures HandleMessage(response, false).Success?
      ensures HandleMessage(response, false).value.Str?
      ensures Joining.SplitMessages(HandleMessage(response, false).value.s) == messages
    {
      Joining.JoinStrings(messages, ". ");
      Joining.SplitInterleave(messages);
    }

    static const InvalidResponsePrefix := "Payeezy has returned an invalid response: ["

    /** `json_error(raw_response)`: an error hash whose one message quotes the raw body. */
    static function JsonError(raw: string): (r: Value)
      ensures r.Hash? && Keys(r.pairs) == [Str("Error")]
      ensures Get(r.pairs, Str("Error")).Hash?
      ensures Keys(Get(r.pairs, Str("Error")).pairs) == [Str("messages")]
      ensures RawFromJsonError(r) == Some(raw)
    {
      var message := InvalidResponsePrefix + Inspection.InspectString(raw) + "]";
      var r := Hash([(Str("Error"), Hash([(Str("messages"), Str(message))]))]);
      assert message[..|InvalidResponsePrefix|] == InvalidResponsePrefix;
      assert message[|InvalidResponsePrefix|..|message| - 1] == Inspection.InspectString(raw);
      Inspection.UninspectInspect(raw);
      r
    }

    /** Reads the raw body back out of an error hash shaped like `json_error`'s. */
    static function RawFromJsonError(v: Value): Option<string> {
      if v.Hash? && Get(v.pairs, Str("Error")).Hash? then
        var m := Get(Get(v.pairs, Str("Error")).pairs, Str("messages"));
        if m.Str? && |m.s| > |InvalidResponsePrefix| && m.s[..|InvalidResponsePrefix|] == InvalidResponsePrefix
           && m.s[|m.s| - 1] == ']'
        then Inspection.Uninspect(m.s[|InvalidResponsePrefix|..|m.s| - 1])
        else None
      else None
    }
  }
}
