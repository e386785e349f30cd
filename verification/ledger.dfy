/** A reference node for the repository engine: an append-only list of
    stream items that answers `liststreamkeyitems` with at most the
    requested two matches, in ledger order, and appends one item for every
    `publish`. The node keeps no uniqueness constraint of its own; the
    lemmas below show that the engine's lookup-before-publish keeps keys
    unique on it, and that the engine then meets the contracts stated for
    `MultiChainRepository`. */
module Ledger {
  import opened Base
  import opened Text
  import opened Requests
  import opened Repository

  /** One item on the ledger and the stream it was published to. */
  datatype Entry = Entry(stream: string, item: StreamItem)

  /** The entries a request adds: one for a publish (its transaction id
      stands for the request identifier here), none otherwise. */
  function Appended(r: Request): (added: seq<Entry>)
    ensures |added| <= 1
    ensures r.PublishRequest? <==> added != []
  {
    if r.PublishRequest? then [Entry(r.stream, StreamItem(Some(r.data), Some(r.id), Some(r.key), None))] else []
  }

  /** The entries a session's requests added, in order. */
  function Entries(history: seq<Request>): seq<Entry>
  {
    if history == [] then [] else Appended(history[0]) + Entries(history[1..])
  }

  lemma {:induction false} EntriesAppend(a: seq<Request>, b: seq<Request>)
    ensures Entries(a + b) == Entries(a) + Entries(b)
  {
    if a != [] {
      assert (a + b)[1..] == a[1..] + b;
      EntriesAppend(a[1..], b);
    } else {
      assert a + b == b;
    }
  }

  lemma {:induction false} NoPublishNoEntries(history: seq<Request>)
    requires NoPublish(history)
    ensures Entries(history) == []
  {
    if history != [] {
      NoPublishNoEntries(history[1..]);
    }
  }

  /** The ledger after the requests of a session. */
  function Apply(ledger: seq<Entry>, history: seq<Request>): seq<Entry>
  {
    ledger + Entries(history)
  }

  predicate Holds(e: Entry, stream: string, key: string)
  {
    e.stream == stream && e.item.key == Some(key)
  }

  predicate Present(ledger: seq<Entry>, stream: string, key: string)
  {
    exists i :: 0 <= i < |ledger| && Holds(ledger[i], stream, key)
  }

  /** The items under a key of a stream, in ledger order. */
  function Matching(ledger: seq<Entry>, stream: string, key: string): seq<StreamItem>
  {
    if ledger == [] then []
    else (if Holds(ledger[0], stream, key) then [ledger[0].item] else []) + Matching(ledger[1..], stream, key)
  }

  /** No two items of a stream share a key. */
  predicate UniqueKeys(ledger: seq<Entry>)
  {
    forall i, j :: 0 <= i < j < |ledger| && ledger[i].stream == ledger[j].stream && ledger[i].item.key.Some?
                   ==> ledger[i].item.key != ledger[j].item.key
  }

  lemma {:induction false} MatchingEmpty(ledger: seq<Entry>, stream: string, key: string)
    ensures Matching(ledger, stream, key) == [] <==> !Present(ledger, stream, key)
  {
    if ledger != [] {
      MatchingEmpty(ledger[1..], stream, key);
      if Present(ledger[1..], stream, key) {
        var i :| 0 <= i < |ledger[1..]| && Holds(ledger[1..][i], stream, key);
        assert Holds(ledger[i + 1], stream, key);
      }
      if Present(ledger, stream, key) && !Holds(ledger[0], stream, key) {
        var i :| 0 <= i < |ledger| && Holds(ledger[i], stream, key);
        assert Holds(ledger[1..][i - 1], stream, key);
      }
    }
  }

  /** Every match is the item of a ledger entry under that stream and key. */
  lemma {:induction false} MatchingFromLedger(ledger: seq<Entry>, stream: string, key: string, j: nat)
    requires j < |Matching(ledger, stream, key)|
    ensures exists i :: 0 <= i < |ledger| && Holds(ledger[i], stream, key) && ledger[i].item == Matching(ledger, stream, key)[j]
  {
    var head := if Holds(ledger[0], stream, key) then [ledger[0].item] else [];
    if j < |head| {
      assert Holds(ledger[0], stream, key) && ledger[0].item == Matching(ledger, stream, key)[j];
    } else {
      MatchingFromLedger(ledger[1..], stream, key, j - |head|);
      var i :| 0 <= i < |ledger[1..]| && Holds(ledger[1..][i], stream, key)
               && ledger[1..][i].item == Matching(ledger[1..], stream, key)[j - |head|];
      assert Holds(ledger[i + 1], stream, key) && ledger[i + 1].item == Matching(ledger, stream, key)[j];
    }
  }

  /** On a ledger with unique keys a lookup matches at most one item. */
  lemma {:induction false} MatchingUnique(ledger: seq<Entry>, stream: string, key: string)
    requires UniqueKeys(ledger)
    ensures |Matching(ledger, stream, key)| <= 1
  {
    if ledger != [] {
      var rest := ledger[1..];
      assert UniqueKeys(rest) by {
        forall i, j | 0 <= i < j < |rest| && rest[i].stream == rest[j].stream && rest[i].item.key.Some?
          ensures rest[i].item.key != rest[j].item.key
        {
          assert ledger[i + 1] == rest[i] && ledger[j + 1] == rest[j];
        }
      }
      if Holds(ledger[0], stream, key) {
        assert !Present(rest, stream, key) by {
          forall i | 0 <= i < |rest|
            ensures !Holds(rest[i], stream, key)
          {
            assert ledger[i + 1] == rest[i];
          }
        }
        MatchingEmpty(rest, stream, key);
      } else {
        MatchingUnique(rest, stream, key);
      }
    }
  }

  lemma {:induction false} MatchingAppend(a: seq<Entry>, b: seq<Entry>, stream: string, key: string)
    ensures Matching(a + b, stream, key) == Matching(a, stream, key) + Matching(b, stream, key)
  {
    if a != [] {
      assert (a + b)[1..] == a[1..] + b;
      MatchingAppend(a[1..], b, stream, key);
    } else {
      assert a + b == b;
    }
  }

  /** A reply to a request the node does not serve. */
  const UNSUPPORTED := ResponseError(-32601, Some("Method not found"))

  /** `liststreamkeyitems` with count two: the node reports the latest two
      matches at most, oldest first. */
  function Answer(ledger: seq<Entry>, r: Request): (response: Response<seq<StreamItem>>)
    ensures r.ListStreamKeyItemsRequest? ==>
              var matches := Matching(ledger, r.stream, r.key);
              && response.error.None? && response.result.Some?
              && |response.result.value| == (if |matches| < 2 then |matches| else 2)
              && response.result.value == matches[|matches| - |response.result.value|..]
  {
    if r.ListStreamKeyItemsRequest? then
      var matches := Matching(ledger, r.stream, r.key);
      Response(Some(r.id), None, Some(if |matches| < 2 then matches else matches[|matches| - 2..]))
    else Response(Some(r.id), Some(UNSUPPORTED), None)
  }

  /** `publish`: accepted, with the transaction id as result. */
  function Receipt(r: Request): (response: Response<string>)
    ensures r.PublishRequest? <==> response.error.None?
  {
    if r.PublishRequest? then Response(Some(r.id), None, Some(r.id)) else Response(Some(r.id), Some(UNSUPPORTED), None)
  }

  /** A client talking to a node whose ledger held `genesis` before the session. */
  function Node(genesis: seq<Entry>): Client
  {
    Client((history: seq<Request>, r: Request) => Answer(Apply(genesis, history), r),
           (history: seq<Request>, r: Request) => Receipt(r))
  }

  /** Stored data that reads back as an entity. */
  predicate Decodes<E>(repo: Repo<E>, data: Option<string>)
  {
    Deserialize(repo, data).Success? && Deserialize(repo, data).value.Some?
  }

  /** The invariant the engine keeps on the node: unique keys, and every
      item of the repository's stream reads back as an entity. */
  predicate Consistent<E>(repo: Repo<E>, ledger: seq<Entry>)
  {
    && UniqueKeys(ledger)
    && forall i :: 0 <= i < |ledger| && ledger[i].stream == Trim(repo.info.streamName) ==> Decodes(repo, ledger[i].item.data)
  }

  /** `findOne` on the node: null when nothing matches, the entity of the
      single match, and IncorrectResultSize(1, 2) beyond that, since the
      lookup asks for two items only. */
  lemma FindOneOnLedger<E>(info: EntityInformation<E>, serializer: Serializer<E>, genesis: seq<Entry>,
                           past: seq<Request>, draw: nat -> Random128, id: string)
    requires HasText(Some(info.streamName)) && HasText(Some(Trim(id)))
    ensures var repo := Repo(info, Node(genesis), serializer);
            var matches := Matching(Apply(genesis, past), Trim(info.streamName), Trim(id));
            var r := FindOne(repo, past, draw, Some(id)).result;
            && (matches == [] ==> r == Success(None))
            && (|matches| == 1 ==> r == Deserialize(repo, matches[0].data))
            && (|matches| >= 2 ==> r == Failure(IncorrectResultSize(1, 2)))
  {
    HasTextOfTrim(id);
    var repo := Repo(info, Node(genesis), serializer);
    var o := FindOne(repo, past, draw, Some(id));
    assert |o.trace| == 1;
    var matches := Matching(Apply(genesis, past), Trim(info.streamName), Trim(id));
    assert repo.client.lookup(past, o.trace[0]) == Answer(Apply(genesis, past), o.trace[0]);
    if |matches| == 1 {
      assert matches[0..] == matches;
    }
  }

  /** The first lookup result on a consistent ledger. */
  lemma ConsistentLookup<E>(info: EntityInformation<E>, serializer: Serializer<E>, genesis: seq<Entry>,
                            past: seq<Request>, draw: nat -> Random128, id: string)
    requires HasText(Some(info.streamName)) && HasText(Some(Trim(id)))
    requires Consistent(Repo(info, Node(genesis), serializer), Apply(genesis, past))
    ensures var repo := Repo(info, Node(genesis), serializer);
            var r := FindOne(repo, past, draw, Some(id)).result;
            && (!Present(Apply(genesis, past), Trim(info.streamName), Trim(id)) <==> r == Success(None))
            && (Present(Apply(genesis, past), Trim(info.streamName), Trim(id)) <==> r.Success? && r.value.Some?)
  {
    var repo := Repo(info, Node(genesis), serializer);
    var ledger := Apply(genesis, past);
    var stream := Trim(info.streamName);
    FindOneOnLedger(info, serializer, genesis, past, draw, id);
    MatchingEmpty(ledger, stream, Trim(id));
    MatchingUnique(ledger, stream, Trim(id));
    if Matching(ledger, stream, Trim(id)) != [] {
      MatchingFromLedger(ledger, stream, Trim(id), 0);
    }
  }

  /** `exists` on a consistent node is true exactly when an item under the
      id is on the ledger. */
  lemma ExistsOnLedger<E>(info: EntityInformation<E>, serializer: Serializer<E>, genesis: seq<Entry>,
                          past: seq<Request>, draw: nat -> Random128, id: string)
    requires HasText(Some(info.streamName)) && HasText(Some(Trim(id)))
    requires Consistent(Repo(info, Node(genesis), serializer), Apply(genesis, past))
    ensures Exists(Repo(info, Node(genesis), serializer), past, draw, Some(id)).result
            == Success(Present(Apply(genesis, past), Trim(info.streamName), Trim(id)))
  {
    ConsistentLookup(info, serializer, genesis, past, draw, id);
  }

  /** `save` on a consistent node of an id already present: DuplicateKey,
      and the ledger is unchanged. */
  lemma SaveDuplicateOnLedger<E>(info: EntityInformation<E>, serializer: Serializer<E>, genesis: seq<Entry>,
                                 past: seq<Request>, draw: nat -> Random128, entity: E)
    requires HasText(Some(info.streamName))
    requires info.getId(entity).Some? && HasText(Some(Trim(info.getId(entity).value)))
    requires Consistent(Repo(info, Node(genesis), serializer), Apply(genesis, past))
    requires Present(Apply(genesis, past), Trim(info.streamName), Trim(info.getId(entity).value))
    ensures var o := Save(Repo(info, Node(genesis), serializer), past, draw, Some(entity));
            && o.result == Failure(DuplicateKey(DuplicateMessage(info.getId(entity).value, info.streamName)))
            && Apply(genesis, past + o.trace) == Apply(genesis, past)
  {
    var repo := Repo(info, Node(genesis), serializer);
    var id := info.getId(entity).value;
    HasTextOfTrim(id);
    ConsistentLookup(info, serializer, genesis, past, draw, id);
    SaveFoundIsDuplicate(repo, past, draw, entity);
    var trace := Save(repo, past, draw, Some(entity)).trace;
    NoPublishNoEntries(trace);
    EntriesAppend(past, trace);
  }


  /** A lookup followed by one publish adds exactly the publish's item. */
  lemma AppendOnePublish(genesis: seq<Entry>, past: seq<Request>, lookup: seq<Request>, publish: Request)
    requires NoPublish(lookup) && publish.PublishRequest?
    ensures Apply(genesis, past + (lookup + [publish])) == Apply(genesis, past) + Appended(publish)
  {
    var tail := lookup + [publish];
    NoPublishNoEntries(lookup);
    EntriesAppend(lookup, [publish]);
    assert Entries([publish]) == Appended(publish) + Entries([]) by {
      assert [publish][1..] == [];
    }
    assert Entries(tail) == Appended(publish);
    EntriesAppend(past, tail);
    assert Apply(genesis, past + tail) == genesis + (Entries(past) + Appended(publish));
  }

  /** The publish step of `save` on the node appends the entity's item
      under the id and returns the entity. */
  lemma InsertOnLedger<E>(info: EntityInformation<E>, serializer: Serializer<E>, genesis: seq<Entry>,
                          past: seq<Request>, draw: nat -> Random128, entity: E, id: string, lookup: seq<Request>)
    requires HasText(Some(info.streamName)) && HasText(Some(id)) && NoPublish(lookup)
    ensures var repo := Repo(info, Node(genesis), serializer);
            var o := Insert(repo, past, draw, entity, id, lookup);
            && o.result == Success(Some(entity))
            && exists added :: Apply(genesis, past + o.trace) == Apply(genesis, past) + [added]
                 && Holds(added, Trim(info.streamName), Trim(id))
                 && added.item.data == Some(Serialize(repo, entity))
  {
    var repo := Repo(info, Node(genesis), serializer);
    var o := Insert(repo, past, draw, entity, id, lookup);
    var publish := o.trace[|lookup|];
    assert o.trace == lookup + [publish];
    assert repo.client.publish(past + lookup, publish) == Receipt(publish);
    AppendOnePublish(genesis, past, lookup, publish);
    var added := Appended(publish)[0];
    assert Apply(genesis, past + o.trace) == Apply(genesis, past) + [added];
  }

  /** A lookup of an id that is not on the ledger finds nothing. */
  lemma AbsentLookup<E>(info: EntityInformation<E>, serializer: Serializer<E>, genesis: seq<Entry>,
                        past: seq<Request>, draw: nat -> Random128, id: string)
    requires HasText(Some(info.streamName)) && HasText(Some(Trim(id)))
    requires !Present(Apply(genesis, past), Trim(info.streamName), Trim(id))
    ensures FindOne(Repo(info, Node(genesis), serializer), past, draw, Some(id)).result == Success(None)
  {
    FindOneOnLedger(info, serializer, genesis, past, draw, id);
    MatchingEmpty(Apply(genesis, past), Trim(info.streamName), Trim(id));
  }

  /** `save` on a node where the id is not present: the entity is
      returned and exactly one item under the id, holding the entity's
      hexadecimal JSON, is appended to the ledger. */
  lemma SaveNewOnLedger<E>(info: EntityInformation<E>, serializer: Serializer<E>, genesis: seq<Entry>,
                           past: seq<Request>, draw: nat -> Random128, entity: E)
    requires HasText(Some(info.streamName))
    requires info.getId(entity).Some? && HasText(Some(Trim(info.getId(entity).value)))
    requires !Present(Apply(genesis, past), Trim(info.streamName), Trim(info.getId(entity).value))
    ensures var repo := Repo(info, Node(genesis), serializer);
            var o := Save(repo, past, draw, Some(entity));
            && o.result == Success(Some(entity))
            && exists added :: Apply(genesis, past + o.trace) == Apply(genesis, past) + [added]
                 && Holds(added, Trim(info.streamName), Trim(info.getId(entity).value))
                 && added.item.data == Some(Serialize(repo, entity))
  {
    var repo := Repo(info, Node(genesis), serializer);
    var id := info.getId(entity).value;
    HasTextOfTrim(id);
    AbsentLookup(info, serializer, genesis, past, draw, id);
    var lookup := FindOne(repo, past, draw, Some(id));
    assert Save(repo, past, draw, Some(entity)) == Insert(repo, past, draw, entity, id, lookup.trace);
    InsertOnLedger(info, serializer, genesis, past, draw, entity, id, lookup.trace);
  }

  /** Appending an item under a new key that reads back keeps the invariant. */
  lemma ConsistentExtend<E>(repo: Repo<E>, ledger: seq<Entry>, added: Entry, key: string)
    requires Consistent(repo, ledger)
    requires Holds(added, added.stream, key) && !Present(ledger, added.stream, key)
    requires Decodes(repo, added.item.data)
    ensures Consistent(repo, ledger + [added])
  {
    var extended := ledger + [added];
    forall i, j | 0 <= i < j < |extended| && extended[i].stream == extended[j].stream && extended[i].item.key.Some?
      ensures extended[i].item.key != extended[j].item.key
    {
      if j == |ledger| {
        assert !Holds(ledger[i], added.stream, key);
      }
    }
  }

  /** `save` keeps a consistent node consistent, whatever its outcome,
      provided the serializer reads back what it writes. */
  lemma SavePreservesConsistency<E(!new)>(info: EntityInformation<E>, serializer: Serializer<E>, genesis: seq<Entry>,
                                          past: seq<Request>, draw: nat -> Random128, entity: Option<E>)
    requires FaithfulSerializer(serializer)
    requires Consistent(Repo(info, Node(genesis), serializer), Apply(genesis, past))
    ensures Consistent(Repo(info, Node(genesis), serializer),
                       Apply(genesis, past + Save(Repo(info, Node(genesis), serializer), past, draw, entity).trace))
  {
    var repo := Repo(info, Node(genesis), serializer);
    var o := Save(repo, past, draw, entity);
    EntriesAppend(past, o.trace);
    if NoPublish(o.trace) {
      NoPublishNoEntries(o.trace);
      assert Entries(past) + [] == Entries(past);
    } else {
      PublishOnlyWhenAbsent(repo, past, draw, entity);
      var e := entity.value;
      var id := info.getId(e).value;
      ConsistentLookup(info, serializer, genesis, past, draw, id);
      SaveNewOnLedger(info, serializer, genesis, past, draw, e);
      var added :| Apply(genesis, past + o.trace) == Apply(genesis, past) + [added]
                   && Holds(added, Trim(info.streamName), Trim(id))
                   && added.item.data == Some(Serialize(repo, e));
      SerializeRoundTrip(repo, e);
      ConsistentExtend(repo, Apply(genesis, past), added, Trim(id));
    }
  }

  /** Regrouping the requests of a session does not change the ledger. */
  lemma ConsistentRegroup<E>(repo: Repo<E>, genesis: seq<Entry>, past: seq<Request>, a: seq<Request>, b: seq<Request>)
    requires Consistent(repo, Apply(genesis, (past + a) + b))
    ensures Consistent(repo, Apply(genesis, past + (a + b)))
  {
    assert (past + a) + b == past + (a + b);
  }

  /** The batch loop keeps a consistent node consistent, whichever save
      fails and wherever the batch stops. */
  lemma {:induction false} SaveEachPreservesConsistency<E(!new)>(info: EntityInformation<E>, serializer: Serializer<E>,
                                                                genesis: seq<Entry>, past: seq<Request>,
                                                                draw: nat -> Random128, entities: seq<Option<E>>)
    requires FaithfulSerializer(serializer)
    requires Consistent(Repo(info, Node(genesis), serializer), Apply(genesis, past))
    ensures Consistent(Repo(info, Node(genesis), serializer),
                       Apply(genesis, past + SaveEach(Repo(info, Node(genesis), serializer), past, draw, entities).trace))
    decreases |entities|
  {
    var repo := Repo(info, Node(genesis), serializer);
    var o := SaveEach(repo, past, draw, entities);
    if entities == [] {
      assert o.trace == [];
      assert past + o.trace == past;
    } else {
      SaveEachUnfold(repo, past, draw, entities);
      var first := Save(repo, past, draw, entities[0]);
      SavePreservesConsistency(info, serializer, genesis, past, draw, entities[0]);
      if first.result.Success? {
        var rest := SaveEach(repo, past + first.trace, draw, entities[1..]);
        SaveEachPreservesConsistency(info, serializer, genesis, past + first.trace, draw, entities[1..]);
        ConsistentRegroup(repo, genesis, past, first.trace, rest.trace);
      } else {
        assert o.trace == first.trace;
      }
    }
  }

  /** `save(Iterable)` keeps a consistent node consistent: no batch, even
      one holding the same id twice, leaves two items under one key. */
  lemma SaveAllPreservesConsistency<E(!new)>(info: EntityInformation<E>, serializer: Serializer<E>,
                                             genesis: seq<Entry>, past: seq<Request>,
                                             draw: nat -> Random128, entities: Option<seq<Option<E>>>)
    requires FaithfulSerializer(serializer)
    requires Consistent(Repo(info, Node(genesis), serializer), Apply(genesis, past))
    ensures Consistent(Repo(info, Node(genesis), serializer),
                       Apply(genesis, past + SaveAll(Repo(info, Node(genesis), serializer), past, draw, entities).trace))
  {
    if entities.Some? && entities.value != [] {
      SaveEachPreservesConsistency(info, serializer, genesis, past, draw, entities.value);
    } else {
      assert past + [] == past;
    }
  }

  /** An item appended under a key the ledger lacks is its only match. */
  lemma MatchingOneMore(ledger: seq<Entry>, added: Entry, stream: string, key: string)
    requires !Present(ledger, stream, key) && Holds(added, stream, key)
    ensures Matching(ledger + [added], stream, key) == [added.item]
  {
    MatchingEmpty(ledger, stream, key);
    MatchingAppend(ledger, [added], stream, key);
    assert Matching([added], stream, key) == [added.item] by {
      assert [added][1..] == [];
    }
  }

  /** A save of a new id leaves exactly one item under that key: the
      serialized entity. */
  lemma SaveNewMatchesOnce<E>(info: EntityInformation<E>, serializer: Serializer<E>, genesis: seq<Entry>,
                              past: seq<Request>, draw: nat -> Random128, entity: E)
    requires HasText(Some(info.streamName))
    requires info.getId(entity).Some? && HasText(Some(Trim(info.getId(entity).value)))
    requires !Present(Apply(genesis, past), Trim(info.streamName), Trim(info.getId(entity).value))
    ensures var repo := Repo(info, Node(genesis), serializer);
            var after := past + Save(repo, past, draw, Some(entity)).trace;
            var matches := Matching(Apply(genesis, after), Trim(info.streamName), Trim(info.getId(entity).value));
            |matches| == 1 && matches[0].data == Some(Serialize(repo, entity))
  {
    var repo := Repo(info, Node(genesis), serializer);
    var key := Trim(info.getId(entity).value);
    var after := past + Save(repo, past, draw, Some(entity)).trace;
    SaveNewOnLedger(info, serializer, genesis, past, draw, entity);
    var added :| Apply(genesis, after) == Apply(genesis, past) + [added]
                 && Holds(added, Trim(info.streamName), key)
                 && added.item.data == Some(Serialize(repo, entity));
    MatchingOneMore(Apply(genesis, past), added, Trim(info.streamName), key);
  }

  /** What `save` stored, the next `findOne` of that id returns. */
  lemma SaveThenFind<E(!new)>(info: EntityInformation<E>, serializer: Serializer<E>, genesis: seq<Entry>,
                              past: seq<Request>, draw: nat -> Random128, entity: E)
    requires FaithfulSerializer(serializer)
    requires HasText(Some(info.streamName))
    requires info.getId(entity).Some? && HasText(Some(Trim(info.getId(entity).value)))
    requires !Present(Apply(genesis, past), Trim(info.streamName), Trim(info.getId(entity).value))
    ensures var repo := Repo(info, Node(genesis), serializer);
            var after := past + Save(repo, past, draw, Some(entity)).trace;
            FindOne(repo, after, draw, info.getId(entity)).result == Success(Some(entity))
  {
    var repo := Repo(info, Node(genesis), serializer);
    var after := past + Save(repo, past, draw, Some(entity)).trace;
    SaveNewMatchesOnce(info, serializer, genesis, past, draw, entity);
    FindSingleMatch(info, serializer, genesis, after, draw, entity);
  }

  /** A key with one match keeps that single match when later entries
      leave the keys unique. */
  lemma MatchingKept(a: seq<Entry>, b: seq<Entry>, stream: string, key: string)
    requires |Matching(a, stream, key)| == 1 && UniqueKeys(a + b)
    ensures Matching(a + b, stream, key) == Matching(a, stream, key)
  {
    MatchingAppend(a, b, stream, key);
    MatchingUnique(a + b, stream, key);
    assert Matching(b, stream, key) == [];
  }

  /** The single match of a key survives later requests that keep the
      keys unique. */
  lemma SingleMatchLater(genesis: seq<Entry>, history: seq<Request>, later: seq<Request>, stream: string, key: string)
    requires |Matching(Apply(genesis, history), stream, key)| == 1
    requires UniqueKeys(Apply(genesis, history + later))
    ensures Matching(Apply(genesis, history + later), stream, key) == Matching(Apply(genesis, history), stream, key)
  {
    EntriesAppend(history, later);
    assert Apply(genesis, history + later) == Apply(genesis, history) + Entries(later);
    MatchingKept(Apply(genesis, history), Entries(later), stream, key);
  }

  /** `findOne` returns the entity whose serialized form is the single match. */
  lemma FindSingleMatch<E(!new)>(info: EntityInformation<E>, serializer: Serializer<E>, genesis: seq<Entry>,
                                 history: seq<Request>, draw: nat -> Random128, entity: E)
    requires FaithfulSerializer(serializer)
    requires HasText(Some(info.streamName))
    requires info.getId(entity).Some? && HasText(Some(Trim(info.getId(entity).value)))
    requires var matches := Matching(Apply(genesis, history), Trim(info.streamName), Trim(info.getId(entity).value));
             |matches| == 1 && matches[0].data == Some(Serialize(Repo(info, Node(genesis), serializer), entity))
    ensures FindOne(Repo(info, Node(genesis), serializer), history, draw, info.getId(entity)).result == Success(Some(entity))
  {
    FindOneOnLedger(info, serializer, genesis, history, draw, info.getId(entity).value);
    SerializeRoundTrip(Repo(info, Node(genesis), serializer), entity);
  }

  /** What `save` stored, `findOne` returns at any later point of the
      session, whatever requests came in between, as long as the node's
      keys stay unique (as every later save keeps them). */
  lemma SaveThenFindLater<E(!new)>(info: EntityInformation<E>, serializer: Serializer<E>, genesis: seq<Entry>,
                                   past: seq<Request>, draw: nat -> Random128, entity: E, later: seq<Request>)
    requires FaithfulSerializer(serializer)
    requires HasText(Some(info.streamName))
    requires info.getId(entity).Some? && HasText(Some(Trim(info.getId(entity).value)))
    requires !Present(Apply(genesis, past), Trim(info.streamName), Trim(info.getId(entity).value))
    requires UniqueKeys(Apply(genesis, past + Save(Repo(info, Node(genesis), serializer), past, draw, Some(entity)).trace + later))
    ensures var repo := Repo(info, Node(genesis), serializer);
            var after := past + Save(repo, past, draw, Some(entity)).trace;
            FindOne(repo, after + later, draw, info.getId(entity)).result == Success(Some(entity))
  {
    var repo := Repo(info, Node(genesis), serializer);
    var stream := Trim(info.streamName);
    var key := Trim(info.getId(entity).value);
    var after := past + Save(repo, past, draw, Some(entity)).trace;
    SaveNewMatchesOnce(info, serializer, genesis, past, draw, entity);
    SingleMatchLater(genesis, after, later, stream, key);
    FindSingleMatch(info, serializer, genesis, after + later, draw, entity);
  }


  /** After a save the id is stored and the node stays consistent, whether
      or not the id was there before. */
  lemma SaveMakesPresent<E(!new)>(info: EntityInformation<E>, serializer: Serializer<E>, genesis: seq<Entry>,
                                  past: seq<Request>, draw: nat -> Random128, entity: E)
    requires FaithfulSerializer(serializer)
    requires HasText(Some(info.streamName))
    requires info.getId(entity).Some? && HasText(Some(Trim(info.getId(entity).value)))
    requires Consistent(Repo(info, Node(genesis), serializer), Apply(genesis, past))
    ensures var repo := Repo(info, Node(genesis), serializer);
            var after := past + Save(repo, past, draw, Some(entity)).trace;
            && Consistent(repo, Apply(genesis, after))
            && Present(Apply(genesis, after), Trim(info.streamName), Trim(info.getId(entity).value))
  {
    var repo := Repo(info, Node(genesis), serializer);
    var id := info.getId(entity).value;
    var stream := Trim(info.streamName);
    var after := past + Save(repo, past, draw, Some(entity)).trace;
    SavePreservesConsistency(info, serializer, genesis, past, draw, Some(entity));
    if Present(Apply(genesis, past), stream, Trim(id)) {
      SaveDuplicateOnLedger(info, serializer, genesis, past, draw, entity);
    } else {
      SaveNewOnLedger(info, serializer, genesis, past, draw, entity);
      var added :| Apply(genesis, after) == Apply(genesis, past) + [added] && Holds(added, stream, Trim(id));
      assert Apply(genesis, after)[|Apply(genesis, past)|] == added;
    }
  }

  /** Saving the same entity twice: the second save throws DuplicateKey and
      publishes nothing. */
  lemma SaveTwiceIsDuplicate<E(!new)>(info: EntityInformation<E>, serializer: Serializer<E>, genesis: seq<Entry>,
                                      past: seq<Request>, draw: nat -> Random128, entity: E)
    requires FaithfulSerializer(serializer)
    requires HasText(Some(info.streamName))
    requires info.getId(entity).Some? && HasText(Some(Trim(info.getId(entity).value)))
    requires Consistent(Repo(info, Node(genesis), serializer), Apply(genesis, past))
    ensures var repo := Repo(info, Node(genesis), serializer);
            var after := past + Save(repo, past, draw, Some(entity)).trace;
            var again := Save(repo, after, draw, Some(entity));
            && again.result == Failure(DuplicateKey(DuplicateMessage(info.getId(entity).value, info.streamName)))
            && NoPublish(again.trace)
  {
    var repo := Repo(info, Node(genesis), serializer);
    var after := past + Save(repo, past, draw, Some(entity)).trace;
    SaveMakesPresent(info, serializer, genesis, past, draw, entity);
    HasTextOfTrim(info.getId(entity).value);
    ConsistentLookup(info, serializer, genesis, after, draw, info.getId(entity).value);
    SaveFoundIsDuplicate(repo, after, draw, entity);
  }
}
