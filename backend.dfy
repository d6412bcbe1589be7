/**
 * The REST layer of backend/main.py: validation and moderation gating of
 * room creation, the in-memory `rooms` table it writes, the room lookups and
 * the moderation endpoint.
 */
module Backend {
  import opened PyText
  import opened LlmReply
  import Moderation
  import LlmService

  datatype Option<T> = None | Some(value: T)

  /** The record stored per room. */
  datatype Room = Room(id: string, title: string, topic: string, openingQuestion: string, participants: int, color: string)

  const DefaultColor: string := "from-emerald-500 to-teal-400"

  const RoomA: Room := Room(
    "room-a", "Philosophical Debate", "Is AI capable of true creativity?",
    "Is free will an illusion? Share your perspective.", 12, "from-blue-500 to-cyan-400")
  const RoomB: Room := Room(
    "room-b", "Policy Summit", "Universal Basic Income vs. Guaranteed Jobs",
    "Should AI be regulated? Debate the policy.", 8, "from-purple-500 to-pink-400")

  const TitleTooShort: string := "Title must be at least 3 characters."
  const TitleTooLong: string := "Title must be under 50 characters."
  const TopicTooShort: string := "Topic must be at least 10 characters."
  const TopicTooLong: string := "Topic must be under 200 characters."

  datatype CreateRoomResponse =
    CreateRoomResponse(success: bool, roomId: Option<string>, error: Option<string>, openingQuestion: Option<string>)

  datatype ModerateResponse = ModerateResponse(isSafe: bool, reason: Option<string>)

  /** `get_room` either returns a room or raises an HTTP error. */
  datatype RoomLookup = Found(room: Room) | NotFound(status: int, detail: string)

  /**
   * The four length checks of `create_room`, in order, the first failure
   * winning: the minimums count the stripped text, the maximums the raw text.
   */
  function LengthError(title: string, topic: string): (error: Option<string>)
    ensures error == None <==> 3 <= |Strip(title)| && |title| <= 50 && 10 <= |Strip(topic)| && |topic| <= 200
    ensures |Strip(title)| < 3 ==> error == Some(TitleTooShort)
    ensures |Strip(title)| >= 3 && |title| > 50 ==> error == Some(TitleTooLong)
    ensures |Strip(title)| >= 3 && |title| <= 50 && |Strip(topic)| < 10 ==> error == Some(TopicTooShort)
    ensures |Strip(title)| >= 3 && |title| <= 50 && |Strip(topic)| >= 10 && |topic| > 200 ==> error == Some(TopicTooLong)
  {
    if |Strip(title)| < 3 then Some(TitleTooShort)
    else if |title| > 50 then Some(TitleTooLong)
    else if |Strip(topic)| < 10 then Some(TopicTooShort)
    else if |topic| > 200 then Some(TopicTooLong)
    else None
  }

  /** A title that fails a length check is reported whatever the topic is. */
  lemma TitleCheckedBeforeTopic(title: string, topic: string, otherTopic: string)
    requires |Strip(title)| < 3 || |title| > 50
    ensures LengthError(title, topic) == LengthError(title, otherTopic)
    ensures LengthError(title, topic) in {Some(TitleTooShort), Some(TitleTooLong)}
  {
  }

  /** Whitespace padding never lets a too-short title through. */
  lemma PaddingKeepsShortTitleShort(left: string, title: string, right: string, topic: string)
    requires AllIn(left, Whitespace) && AllIn(right, Whitespace)
    requires |Strip(title)| < 3
    ensures LengthError(left + title + right, topic) == Some(TitleTooShort)
  {
    StripCharsIgnoresPadding(left, title, right, Whitespace);
  }

  /**
   * Whitespace padding does count against the maximum: a title whose stripped
   * form would be stored unchanged is rejected once the padding takes it past
   * 50 characters.
   */
  lemma PaddingCountsAgainstMaximum(left: string, title: string, right: string, topic: string)
    requires AllIn(left, Whitespace) && AllIn(right, Whitespace)
    requires |Strip(title)| >= 3 && |left + title + right| > 50
    ensures Strip(left + title + right) == Strip(title)
    ensures LengthError(left + title + right, topic) == Some(TitleTooLong)
  {
    StripCharsIgnoresPadding(left, title, right, Whitespace);
  }

  /**
   * The validation part of `create_room`: the length checks, then the title's
   * moderation, then the topic's; `None` means the room is created.
   */
  function CreateRoomError(title: string, topic: string, titleReply: Reply, topicReply: Reply): (error: Option<string>)
    ensures LengthError(title, topic).Some? ==> error == LengthError(title, topic)
    ensures error == None <==>
      && LengthError(title, topic) == None
      && Moderation.ModerateContent(title, titleReply).isSafe
      && Moderation.ModerateContent(topic, topicReply).isSafe
  {
    var lengthError := LengthError(title, topic);
    if lengthError.Some? then lengthError
    else
      var titleVerdict := Moderation.ModerateContent(title, titleReply);
      if !titleVerdict.isSafe then Some("Title rejected: " + titleVerdict.reason)
      else
        var topicVerdict := Moderation.ModerateContent(topic, topicReply);
        if !topicVerdict.isSafe then Some("Topic rejected: " + topicVerdict.reason)
        else None
  }

  /**
   * A title rejected by moderation is reported as such, and the topic's
   * moderation is never consulted: its reply makes no difference.
   */
  lemma TitleModeratedBeforeTopic(title: string, topic: string, titleReply: Reply, topicReply: Reply, otherTopicReply: Reply)
    requires LengthError(title, topic) == None
    requires !Moderation.ModerateContent(title, titleReply).isSafe
    ensures CreateRoomError(title, topic, titleReply, topicReply) == CreateRoomError(title, topic, titleReply, otherTopicReply)
    ensures CreateRoomError(title, topic, titleReply, topicReply) == Some("Title rejected: " + Moderation.ModerateContent(title, titleReply).reason)
  {
  }

  /** A topic rejected by moderation, after the title passed, is reported as such. */
  lemma TopicRejectedAfterTitle(title: string, topic: string, titleReply: Reply, topicReply: Reply)
    requires LengthError(title, topic) == None
    requires Moderation.ModerateContent(title, titleReply).isSafe
    requires !Moderation.ModerateContent(topic, topicReply).isSafe
    ensures CreateRoomError(title, topic, titleReply, topicReply) == Some("Topic rejected: " + Moderation.ModerateContent(topic, topicReply).reason)
  {
  }

  /** A blocklisted keyword in the title, in any casing, rejects the room whatever the model says. */
  lemma BlockedTitleRejected(title: string, topic: string, titleReply: Reply, topicReply: Reply, j: nat, i: nat)
    requires LengthError(title, topic) == None
    requires j < |Moderation.BlocklistKeywords|
    requires i + |Moderation.BlocklistKeywords[j]| <= |title|
    requires SameUpToCase(title[i..i + |Moderation.BlocklistKeywords[j]|], Moderation.BlocklistKeywords[j])
    ensures CreateRoomError(title, topic, titleReply, topicReply) == Some("Title rejected: " + Moderation.ProhibitedTerms)
  {
    Moderation.BlocklistCatchesAnyCasing(title, j, i);
  }

  /** Without a model, every request of valid length whose texts pass the blocklist creates a room. */
  lemma FailsOpenWithoutModel(title: string, topic: string, titleReply: Reply, topicReply: Reply)
    requires LengthError(title, topic) == None
    requires Moderation.CheckBlocklist(title).isSafe && Moderation.CheckBlocklist(topic).isSafe
    requires !titleReply.Answer? && !topicReply.Answer?
    ensures CreateRoomError(title, topic, titleReply, topicReply) == None
  {
  }

  /** The eight characters of `uuid.uuid4().hex[:8]`. */
  predicate IsHexSuffix(hex: string) {
    |hex| == 8 && forall i :: 0 <= i < |hex| ==> hex[i] in "0123456789abcdef"
  }

  /** The ids `create_room` makes: "custom-" and eight hex digits. */
  ghost predicate IsCustomId(key: string) {
    |key| == 15 && StartsWith(key, "custom-") && IsHexSuffix(key[7..])
  }

  /** A stored title or topic: stripped, and of a length the checks admitted. */
  ghost predicate IsStoredText(text: string, min: nat, max: nat) {
    min <= |text| <= max && Strip(text) == text
  }

  /** What every room `create_room` stores satisfies, under the key it is stored at. */
  ghost predicate IsCustomRoom(key: string, room: Room) {
    && room.id == key && IsCustomId(key)
    && IsStoredText(room.title, 3, 50) && IsStoredText(room.topic, 10, 200)
    && EndsWith(room.openingQuestion, "?")
    && room.participants == 0 && room.color == DefaultColor
  }

  /** The record `create_room` stores for a request that passed validation. */
  function NewRoom(hex: string, title: string, topic: string, question: string): Room {
    Room("custom-" + hex, Strip(title), Strip(topic), question, 0, DefaultColor)
  }

  lemma CustomIdFromHex(hex: string)
    requires IsHexSuffix(hex)
    ensures IsCustomId("custom-" + hex)
  {
    assert ("custom-" + hex)[7..] == hex;
  }

  lemma StrippedIsStored(raw: string, min: nat, max: nat)
    requires min <= |Strip(raw)| && |raw| <= max
    ensures IsStoredText(Strip(raw), min, max)
  {
    StripCharsIdempotent(raw, Whitespace);
  }

  /** A request that passed validation yields a well-formed room, under its own id. */
  lemma NewRoomIsCustom(hex: string, title: string, topic: string, question: string)
    requires IsHexSuffix(hex) && LengthError(title, topic) == None
    requires question != [] && question[|question| - 1] == '?'
    ensures IsCustomRoom("custom-" + hex, NewRoom(hex, title, topic, question))
  {
    CustomIdFromHex(hex);
    StrippedIsStored(title, 3, 50);
    StrippedIsStored(topic, 10, 200);
  }

  /** A sequence without repetitions has as many distinct elements as entries. */
  lemma {:induction false} DistinctCount(keys: seq<string>)
    requires forall i, j :: 0 <= i < j < |keys| ==> keys[i] != keys[j]
    ensures |set k | k in keys| == |keys|
    decreases |keys|
  {
    if keys != [] {
      DistinctCount(keys[1..]);
      assert (set k | k in keys) == {keys[0]} + (set k | k in keys[1..]);
      assert keys[0] !in (set k | k in keys[1..]);
    }
  }

  /** A map keyed by a repetition-free sequence has one entry per element. */
  lemma KeysCount(keys: seq<string>, m: map<string, Room>)
    requires forall i, j :: 0 <= i < j < |keys| ==> keys[i] != keys[j]
    requires forall k :: k in m <==> k in keys
    ensures |m| == |keys|
  {
    DistinctCount(keys);
    assert m.Keys == set k | k in keys;
  }

  /** Listing the values under every key lists every value of the map, and nothing else. */
  lemma ListedValuesCoverMap(keys: seq<string>, m: map<string, Room>)
    requires forall k :: k in m <==> k in keys
    ensures forall room :: room in ValuesInOrder(keys, m) <==> room in m.Values
  {
    var listed := ValuesInOrder(keys, m);
    forall room | room in m.Values ensures room in listed {
      var k :| k in m && m[k] == room;
      var i :| 0 <= i < |keys| && keys[i] == k;
      assert listed[i] == room;
    }
  }

  /** The values of `m` under `keys`, in that order. */
  function ValuesInOrder(keys: seq<string>, m: map<string, Room>): (values: seq<Room>)
    requires forall k :: k in keys ==> k in m
    ensures |values| == |keys|
    ensures forall i :: 0 <= i < |keys| ==> values[i] == m[keys[i]]
  {
    seq(|keys|, i requires 0 <= i < |keys| => m[keys[i]])
  }

  /**
   * `get_room`: a stored room wins; otherwise the two presets; otherwise an
   * HTTP 404.
   */
  function GetRoom(rooms: map<string, Room>, id: string): (found: RoomLookup)
    ensures found.NotFound? <==> id !in rooms && id != "room-a" && id != "room-b"
    ensures found.NotFound? ==> found == NotFound(404, "Room not found")
    ensures id in rooms ==> found == Found(rooms[id])
    ensures id !in rooms && id == "room-a" ==> found == Found(RoomA)
    ensures id !in rooms && id == "room-b" ==> found == Found(RoomB)
    ensures found.Found? && (forall k :: k in rooms ==> rooms[k].id == k) ==> found.room.id == id
  {
    if id in rooms then Found(rooms[id])
    else if id == "room-a" then Found(RoomA)
    else if id == "room-b" then Found(RoomB)
    else NotFound(404, "Room not found")
  }

  /** No created room can shadow a preset: the presets stay reachable. */
  lemma PresetsStayReachable(rooms: map<string, Room>)
    requires forall k :: k in rooms ==> IsCustomRoom(k, rooms[k])
    ensures GetRoom(rooms, "room-a") == Found(RoomA)
    ensures GetRoom(rooms, "room-b") == Found(RoomB)
  {
    forall k | k in rooms ensures k != "room-a" && k != "room-b" {
      assert IsCustomId(k);
    }
  }

  /** The `/api/moderate` endpoint: a reason exactly when the text is rejected. */
  function ModerateEndpoint(text: string, reply: Reply): (response: ModerateResponse)
    ensures response.isSafe == Moderation.ModerateContent(text, reply).isSafe
    ensures response.reason == None <==> response.isSafe
    ensures response.reason.Some? ==> response.reason.value == Moderation.ModerateContent(text, reply).reason
  {
    var verdict := Moderation.ModerateContent(text, reply);
    ModerateResponse(verdict.isSafe, if !verdict.isSafe then Some(verdict.reason) else None)
  }

  /** The module-level `rooms` dict of main.py. */
  class RoomStore {
    /** Room id to room record. */
    var rooms: map<string, Room>
    /** The keys of `rooms` in insertion order, which Python dicts keep and `get_rooms` reports. */
    var order: seq<string>

    ghost predicate Valid()
      reads this
    {
      && (forall i, j :: 0 <= i < j < |order| ==> order[i] != order[j])
      && (forall k :: k in rooms <==> k in order)
      && (forall k :: k in rooms ==> IsCustomRoom(k, rooms[k]))
    }

    constructor ()
      ensures Valid() && rooms == map[] && order == []
    {
      rooms := map[];
      order := [];
    }

    /** `get_rooms`: every stored room once, in insertion order. */
    function GetRooms(): (listed: seq<Room>)
      reads this
      requires Valid()
      ensures |listed| == |rooms| == |order|
      ensures forall i :: 0 <= i < |order| ==> listed[i] == rooms[order[i]]
      ensures forall room :: room in listed <==> room in rooms.Values
    {
      KeysCount(order, rooms);
      ListedValuesCoverMap(order, rooms);
      ValuesInOrder(order, rooms)
    }

    /**
     * `create_room`: on any validation or moderation failure nothing is
     * stored; otherwise exactly one key, "custom-" + `hex`, is written (an
     * existing one would be overwritten: there is no collision check) and the
     * response carries that id and the stored opening question.
     */
    method CreateRoom(title: string, topic: string, titleReply: Reply, topicReply: Reply, questionReply: Reply, hex: string)
      returns (response: CreateRoomResponse)
      requires Valid() && IsHexSuffix(hex)
      modifies this
      ensures Valid()
      ensures response.success <==> CreateRoomError(title, topic, titleReply, topicReply) == None
      ensures !response.success ==>
        && response == CreateRoomResponse(false, None, CreateRoomError(title, topic, titleReply, topicReply), None)
        && rooms == old(rooms) && order == old(order)
      ensures response.success ==>
        var id := "custom-" + hex;
        var question := LlmService.GenerateOpeningQuestion(topic, questionReply);
        && response == CreateRoomResponse(true, Some(id), None, Some(question))
        && rooms == old(rooms)[id := NewRoom(hex, title, topic, question)]
        && order == if id in old(rooms) then old(order) else old(order) + [id]
    {
      var error := CreateRoomError(title, topic, titleReply, topicReply);
      if error.Some? {
        response := CreateRoomResponse(false, None, error, None);
        return;
      }
      var question := LlmService.GenerateOpeningQuestion(topic, questionReply);
      var id := "custom-" + hex;
      NewRoomIsCustom(hex, title, topic, question);
      if id !in rooms {
        order := order + [id];
      }
      rooms := rooms[id := NewRoom(hex, title, topic, question)];
      response := CreateRoomResponse(true, Some(id), None, Some(question));
    }
  }
}
