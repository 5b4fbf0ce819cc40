/** The per-user store and the session of the chat service (main.py): a
    map from user name to the user's record of conversation turns and
    research records, and the name the session is logged in as. `login`,
    `chat` and `research_data` are the transitions of this state. */
module Store {
  import opened Wrappers
  import Json
  import Annotation
  import opened Context

  /** One entry of `research_data`: when a state was parsed, and the state. */
  datatype ResearchRecord = ResearchRecord(timestamp: string, emotions: Json.Value)

  /** What the store holds for one user. */
  datatype UserData = UserData(conversations: seq<Turn>, researchData: seq<ResearchRecord>)

  const ModelName: string := "claude-3-opus-20240229"
  const MaxTokens: nat := 1000

  /** What `chat` asks of the model. */
  datatype Request = Request(model: string, maxTokens: nat, messages: seq<Message>)

  /** The answers of `chat`. */
  datatype ChatResponse =
    | NotLoggedIn                       // `{'error': 'Not logged in'}`, 401
    | MissingRecord                     // `db[username]` raised outside the `try`
    | UpstreamError(error: string)      // `{'error': str(e)}`, 500
    | Reply(response: string, emotionState: Option<Json.Value>)

  function ChatStatus(r: ChatResponse): (code: nat)
    ensures code == 200 <==> r.Reply?
    ensures code == 401 <==> r.NotLoggedIn?
    ensures code == 500 <==> r.UpstreamError? || r.MissingRecord?
  {
    match r
    case NotLoggedIn => 401
    case MissingRecord => 500
    case UpstreamError(_) => 500
    case Reply(_, _) => 200
  }

  /** The answers of `research_data`. */
  datatype ResearchResponse = Unauthorized | Records(records: seq<ResearchRecord>)

  /** `if emotion_state:`: a parsed state is kept only when it is truthy. */
  predicate Recordable(state: Option<Json.Value>) {
    state.Some? && Json.Truthy(state.value)
  }

  /** The request `chat` sends for a stored history and a new message. */
  function ChatRequest(prompt: string, conversations: seq<Turn>, message: string): Request {
    Request(ModelName, MaxTokens, ContextWindow(prompt, conversations, message))
  }

  /** A user's record after a successful exchange: one more turn holding
      the message and the raw reply, and one more research record exactly
      when the parsed state is truthy; nothing earlier changes. */
  function RecordExchange(u: UserData, message: string, reply: string, state: Option<Json.Value>,
                          turnTime: string, stateTime: string): (r: UserData)
    ensures |r.conversations| == |u.conversations| + 1
    ensures r.conversations[..|u.conversations|] == u.conversations
    ensures r.conversations[|u.conversations|] == Turn(message, reply, turnTime)
    ensures |r.researchData| == |u.researchData| + (if Recordable(state) then 1 else 0)
    ensures r.researchData[..|u.researchData|] == u.researchData
    ensures Recordable(state) ==> r.researchData[|u.researchData|] == ResearchRecord(stateTime, state.value)
  {
    var research :=
      if Recordable(state) then u.researchData + [ResearchRecord(stateTime, state.value)]
      else u.researchData;
    UserData(u.conversations + [Turn(message, reply, turnTime)], research)
  }

  /** Every research record of a user holds a truthy state. */
  predicate ResearchTruthy(u: UserData) {
    forall k :: 0 <= k < |u.researchData| ==> Json.Truthy(u.researchData[k].emotions)
  }

  /** An exchange keeps every research record truthy. */
  lemma ExchangeKeepsResearchTruthy(u: UserData, message: string, reply: string,
                                    state: Option<Json.Value>, turnTime: string, stateTime: string)
    requires ResearchTruthy(u)
    ensures ResearchTruthy(RecordExchange(u, message, reply, state, turnTime, stateTime))
  {
    var r := RecordExchange(u, message, reply, state, turnTime, stateTime);
    forall k | 0 <= k < |r.researchData|
      ensures Json.Truthy(r.researchData[k].emotions)
    {
      if k < |u.researchData| {
        assert r.researchData[k] == r.researchData[..|u.researchData|][k];
      }
    }
  }

  /** The next request after an exchange carries that exchange as its most
      recent user and assistant entries, just before the new message. */
  lemma NextRequestCarriesExchange(prompt: string, u: UserData, message: string, reply: string,
                                   state: Option<Json.Value>, turnTime: string, stateTime: string,
                                   next: string)
    ensures var r := ChatRequest(prompt, RecordExchange(u, message, reply, state, turnTime, stateTime).conversations, next).messages;
            |r| >= 4
            && r[|r| - 3] == Message(User, message)
            && r[|r| - 2] == Message(Assistant, reply)
            && r[|r| - 1] == Message(User, next)
  {
    var c := RecordExchange(u, message, reply, state, turnTime, stateTime).conversations;
    ContextWindowShape(prompt, c, next);
    var w := Min(|c|, WindowSize);
    assert c[|c| - w + (w - 1)] == Turn(message, reply, turnTime);
  }

  /** A reply ending in `#STATE { }` is answered with the empty object as
      its state, but no research record is added for it. */
  lemma EmptyStateReturnedNotRecorded(u: UserData, message: string, prefix: string,
                                      turnTime: string, stateTime: string)
    requires !Annotation.Contains(prefix, Annotation.Marker)
    ensures var reply := prefix + Annotation.Marker + " " + "{ }";
            var state := Annotation.ParseEmotionState(reply, Json.Decode);
            state == Some(Json.Object([]))
            && RecordExchange(u, message, reply, state, turnTime, stateTime).researchData == u.researchData
  {
    Annotation.EmptyObjectFound(prefix);
    EmptyObjectNotRecorded(u, message, prefix + Annotation.Marker + " " + "{ }", turnTime, stateTime);
  }

  /** The empty object is falsy, so an exchange with it adds no record. */
  lemma EmptyObjectNotRecorded(u: UserData, message: string, reply: string, turnTime: string, stateTime: string)
    ensures RecordExchange(u, message, reply, Some(Json.Object([])), turnTime, stateTime).researchData == u.researchData
  {
    assert !Recordable(Some(Json.Object([])));
  }

  /** A logged-in user has a record, and every research record holds a
      truthy state. */
  ghost predicate StoreValid(db: map<string, UserData>, session: Option<string>) {
    (session.Some? ==> session.value in db)
    && forall name :: name in db ==> ResearchTruthy(db[name])
  }

  /** Overwriting a user's record with one whose research records are all
      truthy keeps the store valid. */
  lemma OverwriteKeepsValid(db: map<string, UserData>, session: Option<string>, name: string, u: UserData)
    requires StoreValid(db, session) && name in db && ResearchTruthy(u)
    ensures StoreValid(db[name := u], session)
  {
  }

  /** The record updates of a successful `chat`: the turn is appended to
      the conversations, the parsed state to the research data when it is
      truthy, and the conversations are written back into the record. */
  method UpdateRecord(userData: UserData, message: string, reply: string, state: Option<Json.Value>,
                      turnTime: string, stateTime: string) returns (updated: UserData)
    ensures updated == RecordExchange(userData, message, reply, state, turnTime, stateTime)
  {
    var conversations := userData.conversations;
    conversations := conversations + [Turn(message, reply, turnTime)];
    updated := userData;
    if Recordable(state) {
      updated := updated.(researchData := updated.researchData + [ResearchRecord(stateTime, state.value)]);
    }
    updated := updated.(conversations := conversations);
  }

  class App {
    var db: map<string, UserData>
    var session: Option<string>
    const prompt: string

    /** The store invariant `StoreValid` of this app's fields. */
    ghost predicate Valid()
      reads this
    {
      StoreValid(db, session)
    }

    constructor (prompt: string)
      ensures this.prompt == prompt && db == map[] && session == None
      ensures Valid()
    {
      this.prompt := prompt;
      db := map[];
      session := None;
    }

    /** `login`: a non-empty name logs the session in and gets an empty
        record if it has none; an empty or missing name changes nothing. */
    method Login(username: Option<string>) returns (success: bool)
      modifies this
      ensures success <==> username.Some? && username.value != []
      ensures success ==> session == username
      ensures success ==> db == if username.value in old(db) then old(db)
                                else old(db)[username.value := UserData([], [])]
      ensures !success ==> session == old(session) && db == old(db)
      ensures old(Valid()) ==> Valid()
    {
      if username.Some? && username.value != [] {
        var name := username.value;
        session := Some(name);
        if name !in db {
          db := db[name := UserData([], [])];
        }
        success := true;
      } else {
        success := false;
      }
    }

    /** `chat`: builds the context from the stored turns, asks the model
        (`upstream`), and on a reply stores the new turn and, when the parsed
        state is truthy, a research record, then overwrites the user's
        record. `decode` stands for `json.loads`; `turnTime` and `stateTime`
        for the two `datetime.now()` calls. */
    method Chat(message: string, upstream: Request -> Result<string, string>,
                decode: string -> Option<Json.Value>, turnTime: string, stateTime: string)
      returns (resp: ChatResponse)
      modifies this
      ensures session == old(session)
      ensures old(session).None? ==> resp == NotLoggedIn && db == old(db)
      ensures old(session).Some? && old(session).value !in old(db) ==> resp == MissingRecord && db == old(db)
      ensures old(session).Some? && old(session).value in old(db) ==>
                var name := old(session).value;
                var u := old(db)[name];
                match upstream(ChatRequest(prompt, u.conversations, message))
                case Failure(e) => resp == UpstreamError(e) && db == old(db)
                case Success(reply) =>
                  var state := Annotation.ParseEmotionState(reply, decode);
                  resp == Reply(reply, state)
                  && db == old(db)[name := RecordExchange(u, message, reply, state, turnTime, stateTime)]
      ensures old(Valid()) ==> Valid() && !resp.MissingRecord?
    {
      if session.None? {
        return NotLoggedIn;
      }
      var username := session.value;
      if username !in db {
        return MissingRecord;
      }
      var userData := db[username];
      ghost var u := userData;
      var messages := BuildContext(prompt, userData.conversations, message);
      assert Request(ModelName, MaxTokens, messages) == ChatRequest(prompt, u.conversations, message);
      var outcome := upstream(Request(ModelName, MaxTokens, messages));
      if outcome.Failure? {
        return UpstreamError(outcome.error);
      }
      var reply := outcome.value;
      var state := Annotation.ParseEmotionState(reply, decode);
      userData := UpdateRecord(userData, message, reply, state, turnTime, stateTime);
      if Valid() {
        ExchangeKeepsResearchTruthy(u, message, reply, state, turnTime, stateTime);
        OverwriteKeepsValid(db, session, username, userData);
      }
      db := db[username := userData];
      resp := Reply(reply, state);
    }

    /** `research_data`: the logged-in user's research records, or none
        when the user has no record. */
    method ResearchData() returns (resp: ResearchResponse)
      ensures session.None? ==> resp == Unauthorized
      ensures session.Some? ==> resp == Records(if session.value in db then db[session.value].researchData else [])
      ensures Valid() && resp.Records? ==> forall k :: 0 <= k < |resp.records| ==> Json.Truthy(resp.records[k].emotions)
    {
      if session.None? {
        return Unauthorized;
      }
      var username := session.value;
      if username in db {
        resp := Records(db[username].researchData);
      } else {
        resp := Records([]);
      }
    }
  }
}
