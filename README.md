# Payeezy transactions client, modelled in Dafny

This project models `Payeezy::Transactions` from `lib/payeezy/transactions.rb`,
the client of the Payeezy card-payment gateway. The client:

- routes a payment action to its endpoint;
- changes the caller's params hash in place;
- serialises the params to JSON;
- signs the JSON body;
- posts it through a process-wide transaction-time logging switch;
- wraps whatever comes back as a response object.

`handle_message` turns a response into text, and `json_error` wraps a raw
reply in an error hash of fixed shape.

The signature is HMAC-SHA256 over the API key, the nonce digits, the
timestamp digits, the token and the body, laid end to end. The digest is
written as lowercase hex (`unpack('H*')`), and that hex text is encoded with
strict Base64 (section 4 of RFC 4648).

Modules, one file each:

- `Objects` (objects.dfy): Ruby values (`nil`, booleans, integers, floats by
  their text, strings, symbols, arrays, hashes), truthiness, `||`, `String#+`
  and the exceptions that reach the client.
- `Hashes` (hashes.dfy): Ruby's ordered Hash with unique keys. `HashObject` is
  the caller's mutable params hash, with `delete` and `[]=`.
- `Numerals` (numerals.dfy): `Integer#to_s`, which renders the nonce and the timestamp.
- `Hex` (hex.dfy): `unpack('H*')`.
- `Base64` (base64.dfy): `Base64.strict_encode64`, and the strict decoder that
  inverts it.
- `Inspection` (inspection.dfy): `inspect` for strings and other values.
- `Joining` (joining.dfy): `Array#join`, and splitting a joined text at `". "`.
- `Logging` (logging.dfy): the class variables `@@log_transaction_time` and
  `@@logging_proc`, and `do_logged_transaction`.
- `Transactions` (transactions.dfy): the client class and its helpers.

The outside world enters as parameters, bundled in `Environment`:

- the JSON encoder;
- the HMAC-SHA256 primitive, which returns 32 bytes;
- the nonce, an Integer in [0, 10^10): line 50 reads
  `SecureRandom.random_number *10000000000`, where the `*` is a splat, so the
  call is `random_number(10000000000)`;
- the clock reading in milliseconds;
- the network post.

Because the JSON encoder is one function, the body that is signed is, by
construction, the body that is sent. The post's result is a `BlockOutcome`.
It is either a normal return with the raw response, or an exception. A
`RequestFailed` exception answers `response` (possibly nil). Any other
exception does not. A registered logging proc (`Logging.Proc`) carries what calling it
does: it returns, or it raises a given exception.

Behaviours of the code worth noting:

- The timing proc is called only after the block returned normally. An
  exception from the post leaves `do_logged_transaction` before the proc is
  reached, so a failed request is never logged. An exception raised by the
  proc itself escapes too, and `call_rest` turns it into a response as it
  does an exception from the post.
- Switching logging on without a block stores nil. After a successful post,
  `nil.call` raises NoMethodError. `call_rest` rescues it, and the result is
  an `InternalErrorResponse` although the gateway answered.
- A missing `:transaction_id` is not checked up front. For the four actions
  that need one, `url + '/' + nil` raises TypeError. Nothing has been sent
  then, and the params hash is still unchanged.
- Errors while building the headers (for example a nil API key) are raised
  after the params hash has already been changed.

## Model

| member | source | states |
|---|---|---|
| Objects.Or | lib/payeezy/transactions.rb:29-32 | `a \|\| b` is truthy exactly when one operand is; it is `a` when `a` is truthy and `b` otherwise |
| Objects.Concat | lib/payeezy/transactions.rb:40 | `String#+` succeeds exactly when both sides are Strings, giving their concatenation; a String with a non-String argument raises TypeError; an Integer, Float or Array receiver raises TypeError; nil, booleans, Symbols and Hashes raise NoMethodError |
| Hashes.Get | lib/payeezy/transactions.rb:95-97 | `h[k]` is nil for an absent key, and otherwise a value stored under `k` |
| Hashes.Values | lib/payeezy/transactions.rb:97 | the values of a hash, in insertion order, one per entry |
| Hashes.Stored | lib/payeezy/transactions.rb:68 | after `h[k] = v` the key reads `v`; every other key reads as before; an existing key keeps its place and a new one is appended; keys stay unique |
| Hashes.Deleted | lib/payeezy/transactions.rb:66 | after `h.delete(k)` the key is gone; every other key is present and reads as before; deleting an absent key changes nothing; with unique keys, deleting the entry at position i leaves exactly the entries before and after it, in their order; keys stay unique |
| Hashes.HashObject.Delete | lib/payeezy/transactions.rb:66 | removes the entry in place and returns its old value (nil when absent) |
| Hashes.HashObject.Store | lib/payeezy/transactions.rb:68 | stores the value in place, as `Stored` describes |
| Numerals.NatToS | lib/payeezy/transactions.rb:40 | the decimal rendering is non-empty, all digits, with no leading zero |
| Numerals.IntToS | lib/payeezy/transactions.rb:40 | `Integer#to_s` starts with '-' exactly for negative numbers, followed by at least one digit; after the sign there are only digits and no leading zero |
| Numerals.ParseIntToS | lib/payeezy/transactions.rb:40 | reading the rendering back gives the integer: `Integer#to_s` loses nothing |
| Hex.BinToHex | lib/payeezy/transactions.rb:45-47 | `unpack('H*')` gives two characters per byte, all from `0-9a-f` |
| Hex.BinToHexAt | lib/payeezy/transactions.rb:45-47 | character 2i is the high nibble of byte i and character 2i+1 its low nibble |
| Hex.HexRoundTrip | lib/payeezy/transactions.rb:45-47 | decoding the hex text gives back the bytes |
| Hex.HexDecodeExact | lib/payeezy/transactions.rb:45-47 | any text that decodes is exactly the hex of what it decodes to |
| Hex.BinToHexInjective | lib/payeezy/transactions.rb:45-47 | distinct byte strings have distinct hex texts |
| Base64.StrictEncode64 | lib/payeezy/transactions.rb:41 | output length is 4·⌈n/3⌉, with only alphabet characters and '=' and no line breaks |
| Base64.DecodeEncode | lib/payeezy/transactions.rb:41 | strict decoding undoes strict encoding |
| Base64.EncodeDecode | lib/payeezy/transactions.rb:41 | every text the strict decoder accepts is the encoding of what it decodes to |
| Base64.StrictEncode64Injective | lib/payeezy/transactions.rb:41 | distinct inputs have distinct encodings |
| Inspection.InspectString | lib/payeezy/transactions.rb:120 | `String#inspect` is a double-quoted literal |
| Inspection.Inspect | lib/payeezy/transactions.rb:99 | `inspect` writes nil as `nil`, booleans as `true`/`false`, an Integer as digits that read back to it, a String as its `String#inspect` literal that reads back to it, a Symbol after ':', an Array in brackets and a Hash in braces |
| Inspection.UninspectInspect | lib/payeezy/transactions.rb:120 | the literal can be read back to the original text, so no character of the raw response is lost |
| Joining.JoinStrings | lib/payeezy/transactions.rb:97 | joining String elements lays their texts end to end with the separator between neighbours |
| Joining.ToS | lib/payeezy/transactions.rb:97 | `join` writes nil as the empty text, a String as itself, an Integer as digits that read back to it, and a Hash as its `inspect` |
| Joining.InspectStringHash | lib/payeezy/transactions.rb:99 | `inspect` of a Hash of Strings writes each entry as its key literal, `=>`, its value literal, the entries separated by ", " inside braces |
| Joining.SplitInterleave | lib/payeezy/transactions.rb:97 | messages free of ". " are recovered, in order, from their joined text |
| Logging.TransactionLogging.constructor | lib/payeezy/transactions.rb:12-13 | the switch starts off, with no proc |
| Logging.TransactionLogging.TransactionTimeLoggingOn | lib/payeezy/transactions.rb:16-19 | the flag becomes true and the given block (possibly none) is stored |
| Logging.TransactionLogging.TransactionTimeLoggingOff | lib/payeezy/transactions.rb:21-24 | the flag becomes false and the proc nil |
| Logging.TransactionLogging.DoLoggedTransaction | lib/payeezy/transactions.rb:130-146 | the block runs exactly once; the proc is called once when the switch is on and the block returned, and never otherwise; an exception from the block escapes; after a normal return, on with no proc raises NoMethodError, an exception from the proc escapes, and nothing escapes otherwise |
| Transactions.Signature | lib/payeezy/transactions.rb:41 | the Base64 of the hex text is 4·⌈2n/3⌉ characters from the Base64 alphabet and '=' |
| Transactions.SignatureRoundTrip | lib/payeezy/transactions.rb:41-47 | the digest can be read back from the signature through Base64, ASCII and hex decoding |
| Transactions.SignatureFacts | lib/payeezy/transactions.rb:41-47 | the Authorization value of a 32-byte digest has 88 characters, no newline, only Base64 alphabet characters and '=', and decodes back to the digest |
| Transactions.SignatureInjective | lib/payeezy/transactions.rb:41-47 | distinct digests give distinct Authorization values |
| Transactions.Transactions.Setting | lib/payeezy/transactions.rb:29-32 | a truthy Symbol-keyed setting wins; otherwise the String-keyed one is used; with neither key the setting is nil |
| Transactions.Transactions.constructor | lib/payeezy/transactions.rb:28-33 | URL, API key, API secret and token are each looked up as `Setting` describes |
| Transactions.Transactions.SignedMessage | lib/payeezy/transactions.rb:40 | the message is API key, nonce digits, timestamp digits, token and body, in that order, with no separators; it exists exactly when API key and token are Strings; a nil API key raises NoMethodError; an Integer, Float or Array API key, or a String API key with a non-String token, raises TypeError |
| Transactions.Transactions.GenerateHmac | lib/payeezy/transactions.rb:39-43 | succeeds exactly when API key, token and secret are Strings; the result has 88 characters, none of them a newline, all from the Base64 alphabet or '='; it decodes to the HMAC of the secret over the signed message; a failure is TypeError, or NoMethodError from an API key that has no `+` |
| Transactions.Transactions.HeaderPairs | lib/payeezy/transactions.rb:52-59 | the six header names are distinct, in order, and each reads back its value |
| Transactions.Transactions.Headers | lib/payeezy/transactions.rb:49-60 | six distinct headers in a fixed order; the apikey and token headers are the stored credentials; the nonce and timestamp headers are the Integers whose digits appear in the HMAC message the Authorization header decodes to; it fails exactly when `generate_hmac` does |
| Transactions.Transactions.RouteUrl | lib/payeezy/transactions.rb:63-65 | for capture, void, refund and split the URL is base + "/" + transaction id; a missing id raises TypeError and a nil base URL NoMethodError; every other action keeps the base URL |
| Transactions.Transactions.PreparedParams | lib/payeezy/transactions.rb:64-68 | `:transaction_type` maps to the action; for the four id actions `:transaction_id` is gone and the remaining keys keep their order; for every action `:transaction_type` keeps its place when present and is appended otherwise; every other key, `:transaction_id` included for the other actions, keeps its presence and value; keys stay unique |
| Transactions.Transactions.CallRest | lib/payeezy/transactions.rb:72-91 | the post runs once; a normal return gives a Response on the raw reply; an exception answering `response` gives a Response on that; any other exception, or nil.call when logging is on without a proc, gives an InternalErrorResponse; an exception raised by the proc is rescued the same way; the proc is called once exactly when logging is on with a proc and the post returned |
| Transactions.Transactions.Commit | lib/payeezy/transactions.rb:62-70 | a failed route raises with params unchanged and nothing sent; otherwise params become `PreparedParams`; the JSON of the new params is both signed and posted, to the routed URL with the signed headers; a header error raises with nothing sent |
| Transactions.Transactions.Transact | lib/payeezy/transactions.rb:35-37 | behaves exactly as `Commit` |
| Transactions.Transactions.HandleMessage | lib/payeezy/transactions.rb:93-101 | success gives `transaction_status`; otherwise an 'Error' entry gives its messages joined with ". " (NoMethodError when the entry is neither Hash nor Array); otherwise the inspect form of the response |
| Transactions.Transactions.ErrorMessagesRecovered | lib/payeezy/transactions.rb:96-97 | an 'Error' hash of text messages, none containing ". ", yields a text that splits back into exactly those messages, in order |
| Transactions.Transactions.JsonError | lib/payeezy/transactions.rb:119-126 | the result has the single key 'Error', whose hash has the single key 'messages'; that message carries the raw text, which can be read back from it |

## Left out

- The network call is a parameter (`Environment.post`). TLS, connection handling and the REST client's exception classes are not modelled. The model keeps only three outcomes: a normal return, an exception with a response, and an exception without one.
- `Payeezy::Response` and `Payeezy::InternalErrorResponse` are opaque constructors (`Response`, `InternalErrorResponse`). Parsing a reply inside `Response.new` counts as part of the post's outcome.
- JSON encoding (`post_data`) is a deterministic parameter. JSON parsing (`parse`) is not modelled.
- `response_error` (lines 103-109) is not modelled. It only chooses between `parse` and `json_error`.
- HMAC-SHA256 is an uninterpreted parameter returning 32 bytes. SHA-256 itself is not modelled.
- The nonce comes from `SecureRandom` and the timestamp from `Time.now`. Both are parameters; their distribution is not modelled.
- `Benchmark.measure` and the text of the log record are left out. The model keeps which proc is called, with which URL, and how often.
- The second `rescue` in `call_rest` (JSON::ParserError, line 86) is not modelled. The general `rescue` before it already catches that error.
- The class variables are sequential state. Thread safety is not modelled.
- lib/payeezy/actions.rb is not part of this model. The action constants are taken to be the Strings "capture", "void", "refund" and "split".
- Inspection.Inspect: uses the `{key=>value}` Hash format of Ruby before 3.4. It treats every non-ASCII character as printable. It writes a Symbol bare only when its name is a plain identifier, so operator Symbols such as `:+` are written quoted.
- Joining.ToS: a Float is its stored text. A recursive Array, which `join` rejects, cannot be built in the model.
- Transactions.Transactions.HandleMessage: assumes the response is a Hash. Other receivers of `key?` are not modelled.
- Transactions.Transactions.CallRest: `Response.new(e.response)` and `InternalErrorResponse.new(e)` inside the rescue clause (lines 82, 84) are taken never to raise. An exception raised there would escape `call_rest`, because the later `rescue JSON::ParserError` (line 86) does not catch exceptions raised in another rescue clause.
- Transactions.Transactions.Commit: assumes the JSON encoder never raises.
