/** `SimpleMultiChainRepository`: create-only storage of entities on an
    append-only ledger that has no uniqueness constraint of its own. A
    lookup asks for at most two items under the entity's key and sorts the
    reply into four outcomes; a save looks the key up first and publishes
    only when nothing was found.

    The RPC client is an oracle: a function from the requests issued so far
    in the session and the next request to the decoded response. Every
    operation returns the requests it issued alongside its result, so that
    "no publish was sent" can be stated. The random values request
    identifiers are made from come from `draw`, indexed by the position of
    the request in the session. */
module Repository {
  import opened Base
  import opened Text
  import opened Requests
  import Hex

  /** The `error` object of a JSON-RPC response. */
  datatype ResponseError = ResponseError(code: int, message: Option<string>)

  /** A decoded JSON-RPC response: the message identifier, then the `error`
      and `result` fields, each absent when the JSON held null. */
  datatype Response<T> = Response(id: Option<string>, error: Option<ResponseError>, result: Option<T>)

  /** One item of a `liststreamkeyitems` result: its data (hexadecimal
      text), transaction id, key and block time in milliseconds. */
  datatype StreamItem = StreamItem(data: Option<string>, txid: Option<string>, key: Option<string>, time: Option<int>)

  /** `MultiChainClient.invoke`, one oracle per response type the engine asks for. */
  datatype Client = Client(
    lookup: (seq<Request>, Request) -> Response<seq<StreamItem>>,
    publish: (seq<Request>, Request) -> Response<string>)

  /** The entity metadata the engine consumes: the stream name, and the
      identifier of an instance (null when it has none). */
  datatype EntityInformation<!E> = EntityInformation(streamName: string, getId: E -> Option<string>)

  /** The JSON serializer, on UTF-8 bytes. Deserializing may yield null or throw. */
  datatype Serializer<!E> = Serializer(toJson: E -> seq<Hex.byte>, fromJson: seq<Hex.byte> -> Result<Option<E>>)

  datatype Repo<!E> = Repo(info: EntityInformation<E>, client: Client, serializer: Serializer<E>)

  /** What an operation returned or threw, and the requests it sent. */
  datatype Outcome<T> = Outcome(result: Result<T>, trace: seq<Request>)

  const INFORMATION_NULL := "MultiChainEntityInformation must not be null."
  const CLIENT_NULL := "MultiChainClient must not be null."
  const ID_BLANK := "Id must not be blank."
  const ID_MISSING := "Id not available for the entity. Make sure that the entity has a property annotated with @Id."

  /** The constructor: the metadata, then the client, must not be null. */
  function NewRepository<E>(info: Option<EntityInformation<E>>, client: Option<Client>, serializer: Serializer<E>): (r: Result<Repo<E>>)
    ensures info.None? ==> r == Failure(IllegalArgument(INFORMATION_NULL))
    ensures info.Some? && client.None? ==> r == Failure(IllegalArgument(CLIENT_NULL))
    ensures r.Success? <==> info.Some? && client.Some?
    ensures r.Success? ==> r.value.info == info.value && r.value.client == client.value
  {
    if info.None? then Failure(IllegalArgument(INFORMATION_NULL))
    else if client.None? then Failure(IllegalArgument(CLIENT_NULL))
    else Success(Repo(info.value, client.value, serializer))
  }

  /** `serialize`: the entity's JSON as hexadecimal text. It is minimal
      lower-case hexadecimal and decodes back to the JSON bytes whenever
      those start with an ASCII character other than NUL. */
  function Serialize<E>(repo: Repo<E>, entity: E): (hex: string)
    ensures Hex.IsMinimalHex(hex)
    ensures var json := repo.serializer.toJson(entity);
            json != [] && 1 <= json[0] < 128 ==> Hex.HexToJson(Some(hex)) == Success(Some(json))
  {
    var json := repo.serializer.toJson(entity);
    var hex := Hex.JsonToHex(Some(json)).value;
    if json != [] && 1 <= json[0] < 128 then Hex.HexRoundTrip(json); hex else hex
  }

  /** `deserialize`: null data gives a null entity; text that is not
      hexadecimal throws; otherwise the JSON deserializer decides. */
  function Deserialize<E>(repo: Repo<E>, hex: Option<string>): (r: Result<Option<E>>)
    ensures hex.None? ==> r == Success(None)
    ensures Hex.HexToJson(hex).Failure? ==> r == Failure(NumberFormat)
    ensures hex.Some? && Hex.HexToJson(hex).Success? ==> r == repo.serializer.fromJson(Hex.HexToJson(hex).value.value)
  {
    match Hex.HexToJson(hex)
    case Failure(e) => Failure(e)
    case Success(None) => Success(None)
    case Success(Some(json)) => repo.serializer.fromJson(json)
  }

  /** A serializer that writes JSON text (which starts with an ASCII
      character) and reads back what it wrote. */
  ghost predicate FaithfulSerializer<E(!new)>(s: Serializer<E>)
  {
    forall e :: var json := s.toJson(e); json != [] && 1 <= json[0] < 128 && s.fromJson(json) == Success(Some(e))
  }

  /** With such a serializer, what `save` stores is what `findOne` returns. */
  lemma SerializeRoundTrip<E(!new)>(repo: Repo<E>, entity: E)
    requires FaithfulSerializer(repo.serializer)
    ensures Deserialize(repo, Some(Serialize(repo, entity))) == Success(Some(entity))
  {
    var json := repo.serializer.toJson(entity);
    assert json != [] && 1 <= json[0] < 128 && repo.serializer.fromJson(json) == Success(Some(entity));
  }

  /** The checks of `findOne` on the reply, in source order: a remote error,
      no result list, more than one item, none, exactly one. */
  function Classify<E>(repo: Repo<E>, response: Response<seq<StreamItem>>): Result<Option<E>>
  {
    if response.error.Some? then Failure(DataRetrievalFailure(response.error.value.message))
    else if response.result.None? then Failure(NullPointer)
    else if |response.result.value| > 1 then Failure(IncorrectResultSize(1, |response.result.value|))
    else if response.result.value == [] then Success(None)
    else Deserialize(repo, response.result.value[0].data)
  }

  /** The one lookup `findOne` sends for `id`, if its arguments pass. */
  function LookupRequest<E>(repo: Repo<E>, past: seq<Request>, draw: nat -> Random128, id: string): Result<Request>
  {
    NewListStreamKeyItemsRequest(Some(repo.info.streamName), Some(Trim(id)), draw(|past|))
  }

  /** `findOne`. A blank id throws before anything is sent. Otherwise
      exactly one `liststreamkeyitems` request for the stream and the
      trimmed id is sent, and the reply decides: a remote error, then more
      than one item, then none (null), then the single item's entity. */
  function FindOne<E>(repo: Repo<E>, past: seq<Request>, draw: nat -> Random128, id: Option<string>): (o: Outcome<Option<E>>)
    ensures !HasText(id) ==> o == Outcome(Failure(IllegalArgument(ID_BLANK)), [])
    ensures |o.trace| == 1 <==> HasText(id) && HasText(Some(repo.info.streamName)) && HasText(Some(Trim(id.value)))
    ensures |o.trace| <= 1
    ensures o.trace == [] ==> o.result.Failure? && o.result.error.IllegalArgument?
    ensures |o.trace| == 1 ==>
              && o.trace[0].ListStreamKeyItemsRequest?
              && o.trace[0].stream == Trim(repo.info.streamName)
              && o.trace[0].key == Trim(id.value)
              && Hex.ParseHex(o.trace[0].id) == Success(draw(|past|))
    ensures |o.trace| == 1 ==>
              var response := repo.client.lookup(past, o.trace[0]);
              && (response.error.Some? ==> o.result == Failure(DataRetrievalFailure(response.error.value.message)))
              && (response.error.None? && response.result.None? ==> o.result == Failure(NullPointer))
              && (response.error.None? && response.result.Some? && |response.result.value| > 1
                  ==> o.result == Failure(IncorrectResultSize(1, |response.result.value|)))
              && (response.error.None? && response.result == Some([]) ==> o.result == Success(None))
              && (response.error.None? && response.result.Some? && |response.result.value| == 1
                  ==> o.result == Deserialize(repo, response.result.value[0].data))
  {
    if !HasText(id) then Outcome(Failure(IllegalArgument(ID_BLANK)), [])
    else
      match LookupRequest(repo, past, draw, id.value)
      case Failure(e) => Outcome(Failure(e), [])
      case Success(request) => Outcome(Classify(repo, repo.client.lookup(past, request)), [request])
  }

  /** `exists`: `findOne(id) != null`, with the same failures and the same
      single lookup. */
  function Exists<E>(repo: Repo<E>, past: seq<Request>, draw: nat -> Random128, id: Option<string>): (o: Outcome<bool>)
    ensures o.trace == FindOne(repo, past, draw, id).trace
    ensures FindOne(repo, past, draw, id).result.Failure? ==> o.result == Failure(FindOne(repo, past, draw, id).result.error)
    ensures FindOne(repo, past, draw, id).result.Success? ==> o.result == Success(FindOne(repo, past, draw, id).result.value.Some?)
  {
    var found := FindOne(repo, past, draw, id);
    match found.result
    case Failure(e) => Outcome(Failure(e), found.trace)
    case Success(entity) => Outcome(Success(entity.Some?), found.trace)
  }

  /** The message `save` gives a duplicate key. */
  function DuplicateMessage(id: string, stream: string): string
  {
    "Id " + id + " already exists for stream " + stream + "."
  }

  predicate NoPublish(trace: seq<Request>)
  {
    forall i :: 0 <= i < |trace| ==> !trace[i].PublishRequest?
  }

  /** The publish step of `save`, after a lookup (the requests in `lookup`)
      that found nothing: one `publish` of the stream, the id and the
      entity's hexadecimal JSON, whose reply decides between a
      DataAccessResourceFailure and returning the entity. */
  function Insert<E>(repo: Repo<E>, past: seq<Request>, draw: nat -> Random128, entity: E, id: string, lookup: seq<Request>)
    : (o: Outcome<Option<E>>)
    ensures |lookup| <= |o.trace| <= |lookup| + 1 && o.trace[..|lookup|] == lookup
    ensures o.result.Success? ==> o.result == Success(Some(entity))
    ensures !HasText(Some(repo.info.streamName)) || !HasText(Some(id)) ==> o.result.Failure? && o.trace == lookup
    ensures HasText(Some(repo.info.streamName)) && HasText(Some(id)) ==>
              && |o.trace| == |lookup| + 1
              && o.trace[|lookup|].PublishRequest?
              && Hex.ParseHex(o.trace[|lookup|].id) == Success(draw(|past| + |lookup|))
              && GetParams(o.trace[|lookup|]) == Some([Text(Trim(repo.info.streamName)), Text(Trim(id)),
                                                      Text(Serialize(repo, entity))])
              && var response := repo.client.publish(past + lookup, o.trace[|lookup|]);
                 o.result == if response.error.Some?
                             then Failure(DataAccessResourceFailure(response.error.value.message))
                             else Success(Some(entity))
  {
    var data := Serialize(repo, entity);
    assert HasText(Some(data)) by {
      assert !IsWhitespace(data[0]);
    }
    match NewPublishRequest(Some(repo.info.streamName), Some(id), Some(data), draw(|past| + |lookup|))
    case Failure(e) => Outcome(Failure(e), lookup)
    case Success(request) =>
      var response := repo.client.publish(past + lookup, request);
      if response.error.Some? then
        Outcome(Failure(DataAccessResourceFailure(response.error.value.message)), lookup + [request])
      else
        Outcome(Success(Some(entity)), lookup + [request])
  }

  /** `save`. A null entity is returned as null and a null or empty id
      throws, both before anything is sent; a whitespace-only id passes
      that check and is then rejected by the lookup. An id that is found
      throws DuplicateKey and nothing is published; an id that is not
      found is published, and only then. */
  function Save<E>(repo: Repo<E>, past: seq<Request>, draw: nat -> Random128, entity: Option<E>): (o: Outcome<Option<E>>)
    ensures entity.None? ==> o == Outcome(Success(None), [])
    ensures entity.Some? && IsEmpty(repo.info.getId(entity.value))
            ==> o == Outcome(Failure(DataIntegrityViolation(ID_MISSING)), [])
    ensures entity.Some? && !IsEmpty(repo.info.getId(entity.value)) && !HasText(repo.info.getId(entity.value))
            ==> o == Outcome(Failure(IllegalArgument(ID_BLANK)), [])
    ensures o.result.Success? ==> o.result.value == entity
    ensures entity.Some? && !IsEmpty(repo.info.getId(entity.value)) ==>
              var id := repo.info.getId(entity.value);
              var lookup := FindOne(repo, past, draw, id);
              && (lookup.result.Failure? ==> o == Outcome(Failure(lookup.result.error), lookup.trace))
              && (lookup.result.Success? && lookup.result.value.Some?
                  ==> o == Outcome(Failure(DuplicateKey(DuplicateMessage(id.value, repo.info.streamName))), lookup.trace))
              && (lookup.result == Success(None) ==> o == Insert(repo, past, draw, entity.value, id.value, lookup.trace))
  {
    if entity.None? then Outcome(Success(None), [])
    else
      var id := repo.info.getId(entity.value);
      if IsEmpty(id) then Outcome(Failure(DataIntegrityViolation(ID_MISSING)), [])
      else
        var lookup := Exists(repo, past, draw, id);
        if lookup.result.Failure? then Outcome(Failure(lookup.result.error), lookup.trace)
        else if lookup.result.value then
          Outcome(Failure(DuplicateKey(DuplicateMessage(id.value, repo.info.streamName))), lookup.trace)
        else
          Insert(repo, past, draw, entity.value, id.value, lookup.trace)
  }

  /** A publish is sent only after a lookup of the entity's id that found
      nothing, and then as the second request. */
  lemma PublishOnlyWhenAbsent<E>(repo: Repo<E>, past: seq<Request>, draw: nat -> Random128, entity: Option<E>)
    requires !NoPublish(Save(repo, past, draw, entity).trace)
    ensures entity.Some?
    ensures FindOne(repo, past, draw, repo.info.getId(entity.value)).result == Success(None)
    ensures var o := Save(repo, past, draw, entity);
            |o.trace| == 2 && o.trace[0].ListStreamKeyItemsRequest? && o.trace[1].PublishRequest?
  {
    var o := Save(repo, past, draw, entity);
    var i :| 0 <= i < |o.trace| && o.trace[i].PublishRequest?;
    var id := repo.info.getId(entity.value);
    var lookup := FindOne(repo, past, draw, id);
  }

  /** When the lookup finds the id, `save` throws DuplicateKey and sends
      nothing beyond that lookup. */
  lemma SaveFoundIsDuplicate<E>(repo: Repo<E>, past: seq<Request>, draw: nat -> Random128, entity: E)
    requires repo.info.getId(entity).Some?
    requires var r := FindOne(repo, past, draw, repo.info.getId(entity)).result; r.Success? && r.value.Some?
    ensures var o := Save(repo, past, draw, Some(entity));
            && o.result == Failure(DuplicateKey(DuplicateMessage(repo.info.getId(entity).value, repo.info.streamName)))
            && NoPublish(o.trace)
  {
    var id := repo.info.getId(entity);
    var lookup := FindOne(repo, past, draw, id);
    assert Save(repo, past, draw, Some(entity))
        == Outcome(Failure(DuplicateKey(DuplicateMessage(id.value, repo.info.streamName))), lookup.trace);
    assert |lookup.trace| == 1 && lookup.trace[0].ListStreamKeyItemsRequest?;
  }

  /** The keys published by a sequence of requests, in order. */
  function PublishedKeys(trace: seq<Request>): seq<string>
  {
    if trace == [] then []
    else (if trace[0].PublishRequest? then [trace[0].key] else []) + PublishedKeys(trace[1..])
  }

  lemma {:induction false} PublishedKeysAppend(a: seq<Request>, b: seq<Request>)
    ensures PublishedKeys(a + b) == PublishedKeys(a) + PublishedKeys(b)
  {
    if a != [] {
      assert (a + b)[1..] == a[1..] + b;
      PublishedKeysAppend(a[1..], b);
    } else {
      assert a + b == b;
    }
  }

  lemma {:induction false} NoPublishNoKeys(trace: seq<Request>)
    requires NoPublish(trace)
    ensures PublishedKeys(trace) == []
  {
    if trace != [] {
      NoPublishNoKeys(trace[1..]);
    }
  }

  /** The key `save` would publish an entity under: its trimmed id. */
  function KeyOf<E>(repo: Repo<E>, entity: Option<E>): seq<string>
  {
    if entity.Some? && repo.info.getId(entity.value).Some? then [Trim(repo.info.getId(entity.value).value)] else []
  }

  /** The keys a batch would publish if every save succeeded, in input order. */
  function SavedKeys<E>(repo: Repo<E>, entities: seq<Option<E>>): seq<string>
  {
    if entities == [] then [] else KeyOf(repo, entities[0]) + SavedKeys(repo, entities[1..])
  }

  lemma {:induction false} SavedKeysAppend<E>(repo: Repo<E>, a: seq<Option<E>>, b: seq<Option<E>>)
    ensures SavedKeys(repo, a + b) == SavedKeys(repo, a) + SavedKeys(repo, b)
  {
    if a != [] {
      assert (a + b)[1..] == a[1..] + b;
      SavedKeysAppend(repo, a[1..], b);
    } else {
      assert a + b == b;
    }
  }

  /** The publish step sends at most the one key, the trimmed id, and
      sends it whenever it succeeds. */
  lemma InsertKeys<E>(repo: Repo<E>, past: seq<Request>, draw: nat -> Random128, entity: E, id: string,
                      lookup: seq<Request>)
    requires NoPublish(lookup)
    ensures var o := Insert(repo, past, draw, entity, id, lookup);
            && PublishedKeys(o.trace) <= [Trim(id)]
            && (o.result.Success? ==> PublishedKeys(o.trace) == [Trim(id)])
  {
    var o := Insert(repo, past, draw, entity, id, lookup);
    NoPublishNoKeys(lookup);
    if |o.trace| == |lookup| + 1 {
      assert o.trace == lookup + [o.trace[|lookup|]];
      PublishedKeysAppend(lookup, [o.trace[|lookup|]]);
      assert [o.trace[|lookup|]][1..] == [];
    } else {
      assert o.trace == lookup;
    }
  }

  /** One `save` publishes at most the entity's key, and publishes it
      whenever it succeeds. */
  lemma SaveKeys<E>(repo: Repo<E>, past: seq<Request>, draw: nat -> Random128, entity: Option<E>)
    ensures var o := Save(repo, past, draw, entity);
            && PublishedKeys(o.trace) <= KeyOf(repo, entity)
            && (o.result.Success? ==> PublishedKeys(o.trace) == KeyOf(repo, entity))
  {
    var o := Save(repo, past, draw, entity);
    if entity.Some? && !IsEmpty(repo.info.getId(entity.value)) {
      var id := repo.info.getId(entity.value);
      var lookup := FindOne(repo, past, draw, id);
      NoPublishNoKeys(lookup.trace);
      if lookup.result == Success(None) {
        InsertKeys(repo, past, draw, entity.value, id.value, lookup.trace);
      } else {
        assert o.trace == lookup.trace;
      }
    }
  }

  /** The loop of `save(Iterable)`: each element is saved in turn, later
      saves see the requests of earlier ones, and the first exception
      stops the batch. On success the list returned holds the input. */
  function SaveEach<E>(repo: Repo<E>, past: seq<Request>, draw: nat -> Random128, entities: seq<Option<E>>)
    : (o: Outcome<seq<Option<E>>>)
    ensures o.result.Success? ==> o.result.value == entities
    decreases |entities|
  {
    if entities == [] then Outcome(Success([]), [])
    else
      var first := Save(repo, past, draw, entities[0]);
      if first.result.Failure? then Outcome(Failure(first.result.error), first.trace)
      else
        var rest := SaveEach(repo, past + first.trace, draw, entities[1..]);
        if rest.result.Failure? then Outcome(Failure(rest.result.error), first.trace + rest.trace)
        else Outcome(Success([first.result.value] + rest.result.value), first.trace + rest.trace)
  }

  /** Splits a batch into its first save and the rest. */
  lemma SaveEachUnfold<E>(repo: Repo<E>, past: seq<Request>, draw: nat -> Random128, entities: seq<Option<E>>)
    requires entities != []
    ensures var o := SaveEach(repo, past, draw, entities);
            var first := Save(repo, past, draw, entities[0]);
            && (first.result.Failure? ==> o.result.Failure? && o.trace == first.trace)
            && (first.result.Success? ==>
                  var rest := SaveEach(repo, past + first.trace, draw, entities[1..]);
                  o.result.Success? == rest.result.Success? && o.trace == first.trace + rest.trace)
  {}

  /** A successful batch publishes its elements' keys, in input order, each once. */
  lemma {:induction false} SaveEachKeys<E>(repo: Repo<E>, past: seq<Request>, draw: nat -> Random128, entities: seq<Option<E>>)
    requires SaveEach(repo, past, draw, entities).result.Success?
    ensures PublishedKeys(SaveEach(repo, past, draw, entities).trace) == SavedKeys(repo, entities)
    decreases |entities|
  {
    if entities != [] {
      SaveEachUnfold(repo, past, draw, entities);
      var first := Save(repo, past, draw, entities[0]);
      SaveKeys(repo, past, draw, entities[0]);
      SaveEachKeys(repo, past + first.trace, draw, entities[1..]);
      PublishedKeysAppend(first.trace, SaveEach(repo, past + first.trace, draw, entities[1..]).trace);
    }
  }

  lemma PrefixExtend(x: seq<string>, lo: seq<string>, a: seq<string>, hi: seq<string>)
    requires lo <= a <= hi
    ensures x + lo <= x + a <= x + hi
  {
    assert (x + a)[..|x + lo|] == x + lo;
    assert (x + hi)[..|x + a|] == x + a;
  }

  lemma ConcatAssoc<T>(a: seq<T>, b: seq<T>, c: seq<T>)
    ensures a + (b + c) == (a + b) + c
  {}

  /** Element `k` is where the batch stopped: the saves before it all
      succeed, the batch throws that element's exception, and the requests
      sent are theirs followed by its own, and nothing after. */
  predicate FailsAt<E>(repo: Repo<E>, past: seq<Request>, draw: nat -> Random128, entities: seq<Option<E>>, k: nat)
    requires k < |entities|
  {
    var o := SaveEach(repo, past, draw, entities);
    var prefix := SaveEach(repo, past, draw, entities[..k]);
    var failing := Save(repo, past + prefix.trace, draw, entities[k]);
    && prefix.result.Success?
    && failing.result.Failure?
    && o.result == Failure(failing.result.error)
    && o.trace == prefix.trace + failing.trace
  }

  /** A failing first save makes the batch fail at once with its exception. */
  lemma SaveEachFirstFails<E>(repo: Repo<E>, past: seq<Request>, draw: nat -> Random128, entities: seq<Option<E>>)
    requires entities != [] && Save(repo, past, draw, entities[0]).result.Failure?
    ensures var first := Save(repo, past, draw, entities[0]);
            SaveEach(repo, past, draw, entities) == Outcome(Failure(first.result.error), first.trace)
  {}

  lemma EmptyPrefix<E>(repo: Repo<E>, past: seq<Request>, draw: nat -> Random128, entities: seq<Option<E>>)
    ensures SaveEach(repo, past, draw, entities[..0]) == Outcome(Success([]), [])
    ensures past + SaveEach(repo, past, draw, entities[..0]).trace == past
  {
    assert entities[..0] == [];
    assert past + [] == past;
  }

  lemma FailsAtFirst<E>(repo: Repo<E>, past: seq<Request>, draw: nat -> Random128, entities: seq<Option<E>>)
    requires entities != [] && Save(repo, past, draw, entities[0]).result.Failure?
    ensures FailsAt(repo, past, draw, entities, 0)
  {
    EmptyPrefix(repo, past, draw, entities);
    SaveEachFirstFails(repo, past, draw, entities);
    ConcatAssoc([], [], Save(repo, past, draw, entities[0]).trace);
  }

  /** After a successful first save, a failing rest makes the batch fail
      with the rest's exception, after both parts' requests. */
  lemma SaveEachRestFails<E>(repo: Repo<E>, past: seq<Request>, draw: nat -> Random128, entities: seq<Option<E>>)
    requires entities != [] && Save(repo, past, draw, entities[0]).result.Success?
    requires SaveEach(repo, past + Save(repo, past, draw, entities[0]).trace, draw, entities[1..]).result.Failure?
    ensures var first := Save(repo, past, draw, entities[0]);
            var rest := SaveEach(repo, past + first.trace, draw, entities[1..]);
            SaveEach(repo, past, draw, entities) == Outcome(Failure(rest.result.error), first.trace + rest.trace)
  {}

  /** A successful prefix of length `k + 1` is the first save followed by
      a successful prefix of length `k` of the rest. */
  lemma SaveEachPrefixCons<E>(repo: Repo<E>, past: seq<Request>, draw: nat -> Random128, entities: seq<Option<E>>,
                              k: nat)
    requires k < |entities| - 1 && Save(repo, past, draw, entities[0]).result.Success?
    requires SaveEach(repo, past + Save(repo, past, draw, entities[0]).trace, draw, entities[1..][..k]).result.Success?
    ensures var first := Save(repo, past, draw, entities[0]);
            var prefix := SaveEach(repo, past, draw, entities[..k + 1]);
            && prefix.result.Success?
            && prefix.trace == first.trace + SaveEach(repo, past + first.trace, draw, entities[1..][..k]).trace
  {
    assert entities[..k + 1][0] == entities[0] && entities[..k + 1][1..] == entities[1..][..k];
    SaveEachUnfold(repo, past, draw, entities[..k + 1]);
  }

  /** The element after a prefix of length `k + 1` is saved after the same
      requests whether the prefix is counted from the batch or from its rest. */
  lemma SaveAfterPrefix<E>(repo: Repo<E>, past: seq<Request>, draw: nat -> Random128, entities: seq<Option<E>>,
                           k: nat)
    requires k < |entities| - 1
    requires SaveEach(repo, past, draw, entities[..k + 1]).trace
             == Save(repo, past, draw, entities[0]).trace
                + SaveEach(repo, past + Save(repo, past, draw, entities[0]).trace, draw, entities[1..][..k]).trace
    ensures var first := Save(repo, past, draw, entities[0]);
            var tailPrefix := SaveEach(repo, past + first.trace, draw, entities[1..][..k]);
            Save(repo, past + SaveEach(repo, past, draw, entities[..k + 1]).trace, draw, entities[k + 1])
            == Save(repo, past + first.trace + tailPrefix.trace, draw, entities[1..][k])
  {
    var first := Save(repo, past, draw, entities[0]);
    var tailPrefix := SaveEach(repo, past + first.trace, draw, entities[1..][..k]);
    ConcatAssoc(past, first.trace, tailPrefix.trace);
    assert entities[k + 1] == entities[1..][k];
  }

  lemma FailsAtNext<E>(repo: Repo<E>, past: seq<Request>, draw: nat -> Random128, entities: seq<Option<E>>, k: nat)
    requires entities != []
    requires Save(repo, past, draw, entities[0]).result.Success?
    requires k < |entities| - 1
    requires FailsAt(repo, past + Save(repo, past, draw, entities[0]).trace, draw, entities[1..], k)
    ensures FailsAt(repo, past, draw, entities, k + 1)
  {
    var first := Save(repo, past, draw, entities[0]);
    var tailPrefix := SaveEach(repo, past + first.trace, draw, entities[1..][..k]);
    SaveEachPrefixCons(repo, past, draw, entities, k);
    SaveEachRestFails(repo, past, draw, entities);
    SaveAfterPrefix(repo, past, draw, entities, k);
    ConcatAssoc(first.trace, tailPrefix.trace,
                Save(repo, past + first.trace + tailPrefix.trace, draw, entities[1..][k]).trace);
  }



  /** A failing batch stops at its first failing element. */
  lemma {:induction false} SaveEachFailsAt<E>(repo: Repo<E>, past: seq<Request>, draw: nat -> Random128,
                                              entities: seq<Option<E>>)
    requires SaveEach(repo, past, draw, entities).result.Failure?
    ensures exists k :: 0 <= k < |entities| && FailsAt(repo, past, draw, entities, k)
    decreases |entities|
  {
    var first := Save(repo, past, draw, entities[0]);
    if first.result.Failure? {
      FailsAtFirst(repo, past, draw, entities);
    } else {
      var next := past + first.trace;
      SaveEachUnfold(repo, past, draw, entities);
      SaveEachFailsAt(repo, next, draw, entities[1..]);
      var k :| 0 <= k < |entities[1..]| && FailsAt(repo, next, draw, entities[1..], k);
      FailsAtNext(repo, past, draw, entities, k);
    }
  }

  /** A failing batch publishes the keys of the elements before the failing
      one, and possibly its own key, and no later key. */
  /** The keys of a successful prefix followed by one save's keys lie
      between the prefix's keys and those of the prefix and the next element. */
  lemma KeysWindow<E>(repo: Repo<E>, entities: seq<Option<E>>, k: nat, prefix: seq<Request>, failing: seq<Request>)
    requires k < |entities|
    requires PublishedKeys(prefix) == SavedKeys(repo, entities[..k])
    requires PublishedKeys(failing) <= KeyOf(repo, entities[k])
    ensures SavedKeys(repo, entities[..k]) <= PublishedKeys(prefix + failing) <= SavedKeys(repo, entities[..k + 1])
  {
    PublishedKeysAppend(prefix, failing);
    assert entities[..k + 1] == entities[..k] + [entities[k]];
    SavedKeysAppend(repo, entities[..k], [entities[k]]);
    assert SavedKeys(repo, [entities[k]]) == KeyOf(repo, entities[k]) by {
      assert [entities[k]][1..] == [];
    }
    PrefixExtend(SavedKeys(repo, entities[..k]), [], PublishedKeys(failing), KeyOf(repo, entities[k]));
    assert SavedKeys(repo, entities[..k]) + [] == SavedKeys(repo, entities[..k]);
  }

  lemma FailsAtKeys<E>(repo: Repo<E>, past: seq<Request>, draw: nat -> Random128, entities: seq<Option<E>>, k: nat)
    requires k < |entities| && FailsAt(repo, past, draw, entities, k)
    ensures SavedKeys(repo, entities[..k]) <= PublishedKeys(SaveEach(repo, past, draw, entities).trace)
                                           <= SavedKeys(repo, entities[..k + 1])
  {
    var prefix := SaveEach(repo, past, draw, entities[..k]);
    var failing := Save(repo, past + prefix.trace, draw, entities[k]);
    SaveEachKeys(repo, past, draw, entities[..k]);
    SaveKeys(repo, past + prefix.trace, draw, entities[k]);
    KeysWindow(repo, entities, k, prefix.trace, failing.trace);
  }

  lemma SaveEachStops<E>(repo: Repo<E>, past: seq<Request>, draw: nat -> Random128, entities: seq<Option<E>>)
    requires SaveEach(repo, past, draw, entities).result.Failure?
    ensures exists k :: 0 <= k < |entities| && FailsAt(repo, past, draw, entities, k) &&
              SavedKeys(repo, entities[..k]) <= PublishedKeys(SaveEach(repo, past, draw, entities).trace)
                                             <= SavedKeys(repo, entities[..k + 1])
  {
    SaveEachFailsAt(repo, past, draw, entities);
    var k :| 0 <= k < |entities| && FailsAt(repo, past, draw, entities, k);
    FailsAtKeys(repo, past, draw, entities, k);
  }

  /** `save(Iterable)`: a null or empty batch gives an empty list and sends
      nothing; otherwise the batch is saved element by element. */
  function SaveAll<E>(repo: Repo<E>, past: seq<Request>, draw: nat -> Random128, entities: Option<seq<Option<E>>>)
    : (o: Outcome<seq<Option<E>>>)
    ensures entities.None? || entities == Some([]) ==> o == Outcome(Success([]), [])
    ensures o.result.Success? && entities.Some? ==> o.result.value == entities.value
    ensures entities.Some? && entities.value != [] ==> o == SaveEach(repo, past, draw, entities.value)
  {
    if entities.None? || entities.value == [] then Outcome(Success([]), [])
    else SaveEach(repo, past, draw, entities.value)
  }
}
