/** JSON-RPC requests: the abstract `Request` with its random identifier and
    the two concrete commands the repository issues, `liststreamkeyitems`
    and `publish`. Requests are immutable once built. */
module Requests {
  import opened Base
  import opened Text
  import Hex
  import Numerals

  /** 2^128: `new BigInteger(128, random)` is uniform below this bound. */
  const ID_SPACE: nat := 0x1_0000_0000_0000_0000_0000_0000_0000_0000

  /** 16^32 is 2^128: at most 32 hexadecimal digits render a 128-bit value. */
  lemma HexDigitsOfIdSpace()
    ensures Numerals.Pow(16, 32) == ID_SPACE
  {
    assert Numerals.Pow(16, 1) == 16;
    Numerals.PowAdd(16, 1, 1);
    assert Numerals.Pow(16, 2) == 0x100;
    Numerals.PowAdd(16, 2, 2);
    assert Numerals.Pow(16, 4) == 0x1_0000;
    Numerals.PowAdd(16, 4, 4);
    assert Numerals.Pow(16, 8) == 0x1_0000_0000;
    Numerals.PowAdd(16, 8, 8);
    assert Numerals.Pow(16, 16) == 0x1_0000_0000_0000_0000;
    Numerals.PowAdd(16, 16, 16);
  }

  /** A value `new BigInteger(128, random)` can return. */
  type Random128 = r: nat | r < ID_SPACE

  /** The MultiChain API commands. */
  datatype Command = ListStreamKeyItems | Publish

  /** `Enum.name()` of the command, which is the wire method name. */
  function CommandName(c: Command): (name: string)
    ensures name != []
  {
    match c
    case ListStreamKeyItems => "liststreamkeyitems"
    case Publish => "publish"
  }

  /** Reads a wire method name back as a command. */
  function ParseCommand(name: string): Option<Command>
  {
    if name == "liststreamkeyitems" then Some(ListStreamKeyItems)
    else if name == "publish" then Some(Publish)
    else None
  }

  /** The command names are distinct, so the method name identifies the command. */
  lemma CommandNameParses(c: Command)
    ensures ParseCommand(CommandName(c)) == Some(c)
  {}

  /** One element of the `Object[]` a request sends as `params`. */
  datatype Param = Text(text: string) | Flag(flag: bool) | Number(number: int)

  /** A request object. `Plain` is a `Request` subclass that keeps the
      default `getParams`; the other two are the concrete request classes,
      whose command their constructor fixes. */
  datatype Request =
    | Plain(id: string, command: Command)
    | ListStreamKeyItemsRequest(id: string, stream: string, key: string)
    | PublishRequest(id: string, stream: string, key: string, data: string)

  /** `getGeneratedID`: the random value rendered by `BigInteger.toString(16)`. */
  function GeneratedId(random: Random128): (id: string)
    ensures Hex.IsMinimalHex(id)
    ensures 1 <= |id| <= 32
    ensures Hex.ParseHex(id) == Success(random)
  {
    HexDigitsOfIdSpace();
    Numerals.DigitsLength(random, 16, 32);
    Hex.ToHexParses(random);
    Hex.ToHex(random)
  }

  /** `Request(Command)`: a null command is rejected; otherwise the request
      gets its identifier once, here. */
  function NewRequest(command: Option<Command>, random: Random128): (r: Result<Request>)
    ensures command.None? <==> r.Failure?
    ensures command.None? ==> r.error == IllegalArgument("Command must not be null.")
    ensures r.Success? ==> GetCommand(r.value) == CommandName(command.value)
    ensures r.Success? ==> Hex.ParseHex(r.value.id) == Success(random)
    ensures r.Success? ==> GetParams(r.value).None?
  {
    match command
    case None => Failure(IllegalArgument("Command must not be null."))
    case Some(c) => Success(Plain(GeneratedId(random), c))
  }

  function CommandOf(r: Request): Command
  {
    match r
    case Plain(_, c) => c
    case ListStreamKeyItemsRequest(_, _, _) => ListStreamKeyItems
    case PublishRequest(_, _, _, _) => Publish
  }

  /** `getCommand`: the command's name. */
  function GetCommand(r: Request): (name: string)
    ensures ParseCommand(name) == Some(CommandOf(r))
  {
    CommandNameParses(CommandOf(r));
    CommandName(CommandOf(r))
  }

  /** `getParams`: null for a plain request, otherwise the `Object[]` the
      concrete class builds from its final fields. */
  function GetParams(r: Request): (params: Option<seq<Param>>)
    ensures r.Plain? <==> params.None?
    ensures r.ListStreamKeyItemsRequest? ==> |params.value| == 4
    ensures r.PublishRequest? ==> |params.value| == 3
  {
    match r
    case Plain(_, _) => None
    case ListStreamKeyItemsRequest(_, stream, key) => Some([Text(stream), Text(key), Flag(false), Number(2)])
    case PublishRequest(_, stream, key, data) => Some([Text(stream), Text(key), Text(data)])
  }

  const STREAM_BLANK := "Stream must not be blank."
  const KEY_BLANK := "Key must not be blank."
  const DATA_BLANK := "Data must not be blank."

  /** `new ListStreamKeyItemsRequest(stream, key)`: a blank stream, then a
      blank key, is rejected; both are stored trimmed. The item count is
      capped at two so that the caller can see a duplicate key. */
  function NewListStreamKeyItemsRequest(stream: Option<string>, key: Option<string>, random: Random128): (r: Result<Request>)
    ensures !HasText(stream) ==> r == Failure(IllegalArgument(STREAM_BLANK))
    ensures HasText(stream) && !HasText(key) ==> r == Failure(IllegalArgument(KEY_BLANK))
    ensures HasText(stream) && HasText(key) ==> r.Success?
    ensures r.Success? ==> && CommandOf(r.value) == ListStreamKeyItems
                           && Hex.ParseHex(r.value.id) == Success(random)
                           && GetParams(r.value) == Some([Text(Trim(stream.value)), Text(Trim(key.value)), Flag(false), Number(2)])
  {
    if !HasText(stream) then Failure(IllegalArgument(STREAM_BLANK))
    else if !HasText(key) then Failure(IllegalArgument(KEY_BLANK))
    else Success(ListStreamKeyItemsRequest(GeneratedId(random), Trim(stream.value), Trim(key.value)))
  }

  /** `new PublishRequest(stream, key, data)`: a blank stream, key or data is
      rejected in that order; stream and key are trimmed, data is kept as is. */
  function NewPublishRequest(stream: Option<string>, key: Option<string>, data: Option<string>, random: Random128): (r: Result<Request>)
    ensures !HasText(stream) ==> r == Failure(IllegalArgument(STREAM_BLANK))
    ensures HasText(stream) && !HasText(key) ==> r == Failure(IllegalArgument(KEY_BLANK))
    ensures HasText(stream) && HasText(key) && !HasText(data) ==> r == Failure(IllegalArgument(DATA_BLANK))
    ensures HasText(stream) && HasText(key) && HasText(data) ==> r.Success?
    ensures r.Success? ==> && CommandOf(r.value) == Publish
                           && Hex.ParseHex(r.value.id) == Success(random)
                           && GetParams(r.value) == Some([Text(Trim(stream.value)), Text(Trim(key.value)), Text(data.value)])
  {
    if !HasText(stream) then Failure(IllegalArgument(STREAM_BLANK))
    else if !HasText(key) then Failure(IllegalArgument(KEY_BLANK))
    else if !HasText(data) then Failure(IllegalArgument(DATA_BLANK))
    else Success(PublishRequest(GeneratedId(random), Trim(stream.value), Trim(key.value), data.value))
  }

  /** Already-trimmed stream and key reach the parameters verbatim. */
  lemma ListParamsVerbatim(stream: string, key: string, random: Random128)
    requires HasText(Some(stream)) && HasText(Some(key))
    requires Trim(stream) == stream && Trim(key) == key
    ensures NewListStreamKeyItemsRequest(Some(stream), Some(key), random).Success?
    ensures GetParams(NewListStreamKeyItemsRequest(Some(stream), Some(key), random).value)
            == Some([Text(stream), Text(key), Flag(false), Number(2)])
  {}

  /** The verbose flag and the count do not depend on any input. */
  lemma ListParamsFixedTail(s1: string, k1: string, s2: string, k2: string, r1: Random128, r2: Random128)
    requires HasText(Some(s1)) && HasText(Some(k1)) && HasText(Some(s2)) && HasText(Some(k2))
    ensures GetParams(NewListStreamKeyItemsRequest(Some(s1), Some(k1), r1).value).value[2..]
            == GetParams(NewListStreamKeyItemsRequest(Some(s2), Some(k2), r2).value).value[2..]
            == [Flag(false), Number(2)]
  {}

  /** The data parameter is not trimmed: surrounding spaces survive, unlike
      those around the stream and the key. */
  lemma PublishDataNotTrimmed(random: Random128)
    ensures var r := NewPublishRequest(Some(" s "), Some(" k "), Some(" 7b7d "), random);
            r.Success? && GetParams(r.value) == Some([Text("s"), Text("k"), Text(" 7b7d ")])
  {
    assert !IsWhitespace(" s "[1]) && !IsWhitespace(" k "[1]) && !IsWhitespace(" 7b7d "[1]);
    assert " s "[..2] == " s" && " k "[..2] == " k";
    assert TrimStart(" s ") == 1 && TrimEnd(" s ", 1) == 2 && Trim(" s ") == "s";
    assert TrimStart(" k ") == 1 && TrimEnd(" k ", 1) == 2 && Trim(" k ") == "k";
  }
}
