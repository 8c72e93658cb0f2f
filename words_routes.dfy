/** The word routes' logic with the web framework and the database session
    taken away: recording one practice attempt, the statistics of a user, and
    the choice of a random word. The database is a `Store`: the users by name,
    the word table, and the progress rows keyed by (user id, word id). */
module WordRoutes {
  import opened Wrappers
  import opened WordProgress
  import opened WordStats

  datatype Word = Word(
    id: nat,
    text: string,
    definition: string,
    example: string,
    level: string,
    pronunciation: Option<string>,
    category: Option<string>)

  /** The identity of a progress row. */
  datatype Key = Key(userId: nat, wordId: nat)

  function KeyOf(p: ProgressRecord): Key {
    Key(p.userId, p.wordId)
  }

  /** The ways a request can fail, with the HTTP status each is answered with. */
  datatype Failure = MissingFields | UserNotFound | WordNotFound | NoMatchingWord | ServerError
  {
    function Status(): (code: nat)
      ensures code == 400 <==> this == MissingFields
      ensures code == 500 <==> this == ServerError
      ensures code in {400, 404, 500}
    {
      match this
      case MissingFields => 400
      case ServerError => 500
      case _ => 404
    }
  }

  /** The JSON body of a practice request; a field is None when its key is absent. */
  datatype PracticeRequest = PracticeRequest(
    username: Option<string>,
    wordId: Option<int>,
    isCorrect: Option<bool>)

  predicate HasAllFields(req: PracticeRequest) {
    req.username.Some? && req.wordId.Some? && req.isCorrect.Some?
  }

  /** The word with primary key `id`, if there is one. */
  function FindWord(words: seq<Word>, id: int): (r: Option<Word>)
    ensures r.Some? ==> r.value in words && r.value.id == id
    ensures r.None? <==> forall w :: w in words ==> w.id != id
  {
    if words == [] then None
    else if words[0].id == id then Some(words[0])
    else FindWord(words[1..], id)
  }

  /** Level filtering applies only when a non-empty level is given. */
  predicate LevelRequested(level: Option<string>) {
    level.Some? && level.value != ""
  }

  predicate Eligible(w: Word, level: Option<string>, excludeIds: seq<int>) {
    (LevelRequested(level) ==> w.level == level.value) && w.id !in excludeIds
  }

  /** The words a random pick chooses from, in table order. */
  function Candidates(words: seq<Word>, level: Option<string>, excludeIds: seq<int>): (r: seq<Word>)
    ensures forall w :: w in r <==> w in words && Eligible(w, level, excludeIds)
    ensures |r| <= |words|
  {
    if words == [] then []
    else if Eligible(words[0], level, excludeIds) then [words[0]] + Candidates(words[1..], level, excludeIds)
    else Candidates(words[1..], level, excludeIds)
  }

  // ---------------------------------------------------------------------------
  // Recording a practice attempt

  /** The row a practice attempt starts from: the stored one, or a new row. */
  function StartingRow(prev: Option<ProgressRecord>, key: Key): ProgressRecord {
    if prev.Some? then prev.value else NewRecord(key.userId, key.wordId)
  }

  /** The row after one attempt: exactly one counter goes up by one, the
      attempt time is recorded, and the mastery level is recomputed. */
  function Practiced(prev: Option<ProgressRecord>, key: Key, isCorrect: bool, now: Timestamp): (q: ProgressRecord)
    ensures var p := StartingRow(prev, key);
      && KeyOf(q) == KeyOf(p)
      && q.correctCount == p.correctCount + (if isCorrect then 1 else 0)
      && q.incorrectCount == p.incorrectCount + (if isCorrect then 0 else 1)
      && q.lastPracticed == Some(now)
    ensures Consistent(q)
  {
    var p := StartingRow(prev, key);
    var bumped := if isCorrect then p.(correctCount := p.correctCount + 1)
                  else p.(incorrectCount := p.incorrectCount + 1);
    Recomputed(bumped.(lastPracticed := Some(now)))
  }

  /** Validation and lookups: the key of the row to update and the answer, or
      why the request is refused. */
  function Resolve(users: map<string, nat>, words: seq<Word>, req: PracticeRequest): (r: Result<(Key, bool), Failure>)
    ensures r.Success? <==> HasAllFields(req) && req.username.value in users && FindWord(words, req.wordId.value).Some?
    ensures r.Success? ==> r.value.0 == Key(users[req.username.value], req.wordId.value) && r.value.1 == req.isCorrect.value
  {
    if !HasAllFields(req) then Failure(MissingFields)
    else if req.username.value !in users then Failure(UserNotFound)
    else match FindWord(words, req.wordId.value)
      case None => Failure(WordNotFound)
      case Some(w) => Success((Key(users[req.username.value], w.id), req.isCorrect.value))
  }

  /** The response and the new progress rows of a practice request. */
  function PracticeSpec(rows: map<Key, ProgressRecord>, users: map<string, nat>, words: seq<Word>,
                        req: PracticeRequest, now: Timestamp): (Result<ProgressRecord, Failure>, map<Key, ProgressRecord>)
  {
    match Resolve(users, words, req)
    case Failure(e) => (Failure(e), rows)
    case Success((key, isCorrect)) =>
      var row := Practiced(Get(rows, key), key, isCorrect, now);
      (Success(row), rows[key := row])
  }

  lemma PracticeSpecSucceeds(rows: map<Key, ProgressRecord>, users: map<string, nat>, words: seq<Word>,
                             req: PracticeRequest, now: Timestamp, key: Key, isCorrect: bool)
    requires Resolve(users, words, req) == Success((key, isCorrect))
    ensures var row := Practiced(Get(rows, key), key, isCorrect, now);
      PracticeSpec(rows, users, words, req, now) == (Success(row), rows[key := row])
  {
  }

  /** Every stored row sits under its own key and has been practised. */
  predicate RowsInvariant(rows: map<Key, ProgressRecord>) {
    forall k :: k in rows ==> KeyOf(rows[k]) == k && Consistent(rows[k])
  }

  /** A request without one of the three fields is refused with 400 and
      changes nothing. */
  lemma PracticeRejectsIncomplete(rows: map<Key, ProgressRecord>, users: map<string, nat>, words: seq<Word>,
                                  req: PracticeRequest, now: Timestamp)
    requires !HasAllFields(req)
    ensures PracticeSpec(rows, users, words, req, now) == (Failure(MissingFields), rows)
    ensures MissingFields.Status() == 400
  {
  }

  /** An unknown user or word is answered with 404 and changes nothing. */
  lemma PracticeRejectsUnknown(rows: map<Key, ProgressRecord>, users: map<string, nat>, words: seq<Word>,
                               req: PracticeRequest, now: Timestamp)
    requires HasAllFields(req)
    ensures req.username.value !in users ==>
      PracticeSpec(rows, users, words, req, now) == (Failure(UserNotFound), rows)
    ensures req.username.value in users && (forall w :: w in words ==> w.id != req.wordId.value) ==>
      PracticeSpec(rows, users, words, req, now) == (Failure(WordNotFound), rows)
    ensures UserNotFound.Status() == 404 && WordNotFound.Status() == 404
  {
  }

  /** A practice request succeeds exactly when all fields are there and both
      the user and the word exist; whenever it fails, the rows are unchanged. */
  lemma PracticeSucceedsIff(rows: map<Key, ProgressRecord>, users: map<string, nat>, words: seq<Word>,
                            req: PracticeRequest, now: Timestamp)
    ensures PracticeSpec(rows, users, words, req, now).0.Success? <==>
      && HasAllFields(req) && req.username.value in users
      && exists w :: w in words && w.id == req.wordId.value
    ensures PracticeSpec(rows, users, words, req, now).0.Failure? ==>
      PracticeSpec(rows, users, words, req, now).1 == rows
  {
    if HasAllFields(req) && req.username.value in users {
      var found := FindWord(words, req.wordId.value);
      if found.Some? {
        assert found.value in words && found.value.id == req.wordId.value;
      }
    }
  }

  /** A successful attempt touches exactly the row of (user, word): it is
      created with both counters 0 when missing, exactly one of its counters
      goes up by one, its mastery fields agree with the new counters, and every
      other row stays as it was. */
  lemma PracticeUpdatesOneRow(rows: map<Key, ProgressRecord>, users: map<string, nat>, words: seq<Word>,
                              req: PracticeRequest, now: Timestamp)
    requires Resolve(users, words, req).Success?
    ensures var key := Key(users[req.username.value], req.wordId.value);
      var (r, after) := PracticeSpec(rows, users, words, req, now);
      var oldCorrect := if key in rows then rows[key].correctCount else 0;
      var oldIncorrect := if key in rows then rows[key].incorrectCount else 0;
      && r.Success? && key in after && r.value == after[key]
      && after.Keys == rows.Keys + {key}
      && (forall k :: k in rows && k != key ==> after[k] == rows[k])
      && after[key].correctCount == oldCorrect + (if req.isCorrect.value then 1 else 0)
      && after[key].incorrectCount == oldIncorrect + (if req.isCorrect.value then 0 else 1)
      && after[key].Total() >= 1
      && after[key].lastPracticed == Some(now)
      && after[key].masteryLevel == MasteryLevel(after[key].correctCount, after[key].incorrectCount)
      && after[key].isMastered == IsMasteredLevel(after[key].masteryLevel)
  {
  }

  /** Practice keeps every row under its own key and consistent. */
  lemma PracticePreservesInvariant(rows: map<Key, ProgressRecord>, users: map<string, nat>, words: seq<Word>,
                                   req: PracticeRequest, now: Timestamp)
    requires RowsInvariant(rows)
    ensures RowsInvariant(PracticeSpec(rows, users, words, req, now).1)
  {
    match Resolve(users, words, req)
    case Failure(_) =>
    case Success((key, isCorrect)) =>
      var row := Practiced(Get(rows, key), key, isCorrect, now);
      assert KeyOf(row) == key;
  }

  lemma RowsInvariantUpdate(rows: map<Key, ProgressRecord>, key: Key, row: ProgressRecord)
    requires RowsInvariant(rows) && KeyOf(row) == key && Consistent(row)
    ensures RowsInvariant(rows[key := row])
  {
  }

  // ---------------------------------------------------------------------------
  // The row as the code first creates it

  /** A counter of a freshly constructed row: the column default is filled in
      by the INSERT, so before the flush the attribute is None. */
  function CounterAsWritten(prev: Option<ProgressRecord>, correct: bool): Option<nat> {
    if prev.None? then None
    else if correct then Some(prev.value.correctCount)
    else Some(prev.value.incorrectCount)
  }

  /** `+= 1` on a counter; on None it raises, which the route answers with 500
      after rolling the session back. */
  function IncrementAsWritten(counter: Option<nat>): (r: Result<nat, Failure>)
    ensures counter.None? <==> r == Failure(ServerError)
  {
    if counter.Some? then Success(counter.value + 1) else Failure(ServerError)
  }

  /** One attempt as written: the counters of a new row are read before any
      default has been applied. */
  function PracticedAsWritten(prev: Option<ProgressRecord>, key: Key, isCorrect: bool, now: Timestamp): Result<ProgressRecord, Failure> {
    var p := StartingRow(prev, key);
    if isCorrect then
      match IncrementAsWritten(CounterAsWritten(prev, true))
      case Failure(e) => Failure(e)
      case Success(c) => Success(Recomputed(p.(correctCount := c, lastPracticed := Some(now))))
    else
      match IncrementAsWritten(CounterAsWritten(prev, false))
      case Failure(e) => Failure(e)
      case Success(i) => Success(Recomputed(p.(incorrectCount := i, lastPracticed := Some(now))))
  }

  /** The practice route as written; a failed attempt is rolled back. */
  function PracticeSpecAsWritten(rows: map<Key, ProgressRecord>, users: map<string, nat>, words: seq<Word>,
                                 req: PracticeRequest, now: Timestamp): (Result<ProgressRecord, Failure>, map<Key, ProgressRecord>)
  {
    match Resolve(users, words, req)
    case Failure(e) => (Failure(e), rows)
    case Success((key, isCorrect)) =>
      match PracticedAsWritten(Get(rows, key), key, isCorrect, now)
      case Failure(e) => (Failure(e), rows)
      case Success(row) => (Success(row), rows[key := row])
  }

  /** As written, the first attempt at a (user, word) pair fails with 500 and
      leaves no row, where the intended behaviour creates the row; and so, as
      written, no practice request ever adds a row. */
  lemma FirstPracticeFailsAsWritten(rows: map<Key, ProgressRecord>, users: map<string, nat>, words: seq<Word>,
                                    req: PracticeRequest, now: Timestamp)
    ensures PracticeSpecAsWritten(rows, users, words, req, now).1.Keys == rows.Keys
    ensures Resolve(users, words, req).Success? && Resolve(users, words, req).value.0 !in rows ==>
      && PracticeSpecAsWritten(rows, users, words, req, now) == (Failure(ServerError), rows)
      && PracticeSpec(rows, users, words, req, now).0.Success?
      && PracticeSpec(rows, users, words, req, now).1.Keys == rows.Keys + {Resolve(users, words, req).value.0}
  {
  }

  /** On a row that already exists, the code as written and the intended
      behaviour agree. */
  lemma AsWrittenAgreesOnExistingRows(rows: map<Key, ProgressRecord>, users: map<string, nat>, words: seq<Word>,
                                      req: PracticeRequest, now: Timestamp)
    requires Resolve(users, words, req).Success? ==> Resolve(users, words, req).value.0 in rows
    ensures PracticeSpecAsWritten(rows, users, words, req, now) == PracticeSpec(rows, users, words, req, now)
  {
  }

  // ---------------------------------------------------------------------------
  // Statistics

  /** `list` holds exactly the rows of user `uid`, each once. */
  predicate ListsRowsOf(rows: map<Key, ProgressRecord>, uid: nat, list: seq<ProgressRecord>) {
    && (forall j :: 0 <= j < |list| ==>
         KeyOf(list[j]) in rows && rows[KeyOf(list[j])] == list[j] && list[j].userId == uid)
    && (forall i, j :: 0 <= i < j < |list| ==> KeyOf(list[i]) != KeyOf(list[j]))
    && (forall k :: k in rows && k.userId == uid ==> rows[k] in list)
  }

  function UserKeys(rows: map<Key, ProgressRecord>, uid: nat): set<Key> {
    set k | k in rows && k.userId == uid
  }

  function KeysOf(list: seq<ProgressRecord>): set<Key> {
    set p | p in list :: KeyOf(p)
  }

  lemma {:induction false} DistinctKeysCount(list: seq<ProgressRecord>)
    requires forall i, j :: 0 <= i < j < |list| ==> KeyOf(list[i]) != KeyOf(list[j])
    ensures |KeysOf(list)| == |list|
  {
    if list != [] {
      DistinctKeysCount(list[1..]);
      assert KeysOf(list) == {KeyOf(list[0])} + KeysOf(list[1..]);
    }
  }

  lemma DistinctCount(list: seq<ProgressRecord>, x: ProgressRecord)
    requires forall i, j :: 0 <= i < j < |list| ==> KeyOf(list[i]) != KeyOf(list[j])
    ensures multiset(list)[x] == if x in list then 1 else 0
  {
    if list != [] {
      DistinctCount(list[1..], x);
      assert list == [list[0]] + list[1..];
    }
  }

  /** Two listings of a user's rows hold the same rows, in some order. */
  lemma ListingsArePermutations(rows: map<Key, ProgressRecord>, uid: nat, a: seq<ProgressRecord>, b: seq<ProgressRecord>)
    requires ListsRowsOf(rows, uid, a) && ListsRowsOf(rows, uid, b)
    ensures multiset(a) == multiset(b)
  {
    forall x | true ensures multiset(a)[x] == multiset(b)[x] {
      DistinctCount(a, x);
      DistinctCount(b, x);
      if x in a {
        var j :| 0 <= j < |a| && a[j] == x;
        assert rows[KeyOf(a[j])] in b;
      }
      if x in b {
        var j :| 0 <= j < |b| && b[j] == x;
        assert rows[KeyOf(b[j])] in a;
      }
    }
  }

  /** The statistics of a user do not depend on the order the rows are read in;
      they count every row of the user, there are at least as many attempts as
      words, and each mastered word brings at least 8 correct answers. */
  lemma StatsOfUser(rows: map<Key, ProgressRecord>, uid: nat, list: seq<ProgressRecord>, other: seq<ProgressRecord>)
    requires RowsInvariant(rows)
    requires ListsRowsOf(rows, uid, list) && ListsRowsOf(rows, uid, other)
    ensures UserStats(list) == UserStats(other)
    ensures UserStats(list).totalWordsPracticed == |UserKeys(rows, uid)|
    ensures UserStats(list).totalAttempts >= UserStats(list).totalWordsPracticed
    ensures 10 * UserStats(list).masteredWords * MasteryThreshold <= 100 * UserStats(list).totalCorrect
  {
    ListingsArePermutations(rows, uid, list, other);
    StatsOfPermutation(list, other);
    DistinctKeysCount(list);
    assert KeysOf(list) == UserKeys(rows, uid) by {
      forall k | k in UserKeys(rows, uid) ensures k in KeysOf(list) {
        assert rows[k] in list && KeyOf(rows[k]) == k;
      }
    }
    forall j | 0 <= j < |list| ensures Consistent(list[j]) {
      assert KeyOf(list[j]) in rows;
    }
    StatsOfPractisedRows(list);
  }

  // ---------------------------------------------------------------------------
  // The database

  /** One attempt on a row object in place: bump exactly one counter, stamp the
      time, recompute the mastery level. */
  method RecordAttempt(p: UserWordProgress, isCorrect: bool, now: Timestamp)
    modifies p
    ensures p.View() == Practiced(Some(old(p.View())), KeyOf(old(p.View())), isCorrect, now)
  {
    if isCorrect {
      p.correctCount := p.correctCount + 1;
    } else {
      p.incorrectCount := p.incorrectCount + 1;
    }
    p.lastPracticed := Some(now);
    p.UpdateMasteryLevel();
  }

  class Store {
    var users: map<string, nat>
    var words: seq<Word>
    var progress: map<Key, UserWordProgress>

    /** The value of every progress row. */
    function Snapshot(): (rows: map<Key, ProgressRecord>)
      reads this, progress.Values
      ensures rows.Keys == progress.Keys
      ensures forall k :: k in progress ==> rows[k] == progress[k].View()
    {
      map k | k in progress :: progress[k].View()
    }

    /** Distinct keys hold distinct row objects, and the rows satisfy the
        row invariant. */
    ghost predicate Valid()
      reads this, progress.Values
    {
      && (forall k1, k2 :: k1 in progress && k2 in progress && k1 != k2 ==> progress[k1] != progress[k2])
      && RowsInvariant(Snapshot())
    }

    constructor (users: map<string, nat>, words: seq<Word>)
      ensures Valid()
      ensures this.users == users && this.words == words && Snapshot() == map[]
    {
      this.users := users;
      this.words := words;
      progress := map[];
    }

    /** The practice route: validate, find or create the row, bump one
        counter, stamp the time and recompute the mastery level. */
    method Practice(req: PracticeRequest, now: Timestamp) returns (r: Result<ProgressRecord, Failure>)
      requires Valid()
      modifies this, progress.Values
      ensures Valid()
      ensures users == old(users) && words == old(words)
      ensures (r, Snapshot()) == PracticeSpec(old(Snapshot()), users, words, req, now)
    {
      ghost var before := Snapshot();
      if req.username.None? || req.wordId.None? || req.isCorrect.None? {
        return Failure(MissingFields);
      }
      if req.username.value !in users {
        return Failure(UserNotFound);
      }
      var uid := users[req.username.value];
      var found := FindWord(words, req.wordId.value);
      if found.None? {
        return Failure(WordNotFound);
      }
      var key := Key(uid, found.value.id);
      PracticeSpecSucceeds(before, users, words, req, now, key, req.isCorrect.value);
      var row := Upsert(key, req.isCorrect.value, now);
      r := Success(row);
    }

    /** Find or create the row of `key` and record one attempt on it. */
    method Upsert(key: Key, isCorrect: bool, now: Timestamp) returns (row: ProgressRecord)
      requires Valid()
      modifies this, progress.Values
      ensures Valid()
      ensures users == old(users) && words == old(words)
      ensures row == Practiced(Get(old(Snapshot()), key), key, isCorrect, now)
      ensures Snapshot() == old(Snapshot())[key := row]
    {
      if key in progress {
        row := AttemptExisting(key, isCorrect, now);
      } else {
        row := AttemptNew(key, isCorrect, now);
      }
    }

    method AttemptExisting(key: Key, isCorrect: bool, now: Timestamp) returns (row: ProgressRecord)
      requires Valid() && key in progress
      modifies progress[key]
      ensures Valid()
      ensures row == Practiced(Get(old(Snapshot()), key), key, isCorrect, now)
      ensures Snapshot() == old(Snapshot())[key := row]
    {
      ghost var before := Snapshot();
      var p := progress[key];
      RecordAttempt(p, isCorrect, now);
      row := p.View();
      ghost var after := Snapshot();
      forall k | k in after
        ensures after[k] == before[key := row][k]
      {
        if k != key {
          assert progress[k] != p;
        }
      }
      assert after == before[key := row];
      RowsInvariantUpdate(before, key, row);
    }

    method AttemptNew(key: Key, isCorrect: bool, now: Timestamp) returns (row: ProgressRecord)
      requires Valid() && key !in progress
      modifies this
      ensures Valid()
      ensures users == old(users) && words == old(words)
      ensures row == Practiced(Get(old(Snapshot()), key), key, isCorrect, now)
      ensures Snapshot() == old(Snapshot())[key := row]
    {
      ghost var before := Snapshot();
      var p := new UserWordProgress(key.userId, key.wordId);
      progress := progress[key := p];
      RecordAttempt(p, isCorrect, now);
      row := p.View();
      ghost var after := Snapshot();
      forall k | k in after
        ensures after[k] == before[key := row][k]
      {
      }
      assert after == before[key := row];
      RowsInvariantUpdate(before, key, row);
    }

    /** The rows of user `uid`, each once, in no particular order. */
    method ProgressOfUser(uid: nat) returns (list: seq<ProgressRecord>)
      requires Valid()
      ensures ListsRowsOf(Snapshot(), uid, list)
    {
      var rows := Snapshot();
      var remaining := progress.Keys;
      list := [];
      while remaining != {}
        invariant remaining <= progress.Keys
        invariant forall j :: 0 <= j < |list| ==>
          KeyOf(list[j]) in rows && KeyOf(list[j]) !in remaining && rows[KeyOf(list[j])] == list[j] && list[j].userId == uid
        invariant forall i, j :: 0 <= i < j < |list| ==> KeyOf(list[i]) != KeyOf(list[j])
        invariant forall k :: k in rows && k !in remaining && k.userId == uid ==> rows[k] in list
        decreases remaining
      {
        var k :| k in remaining;
        if k.userId == uid {
          assert KeyOf(rows[k]) == k;
          list := list + [progress[k].View()];
        }
        remaining := remaining - {k};
      }
    }

    /** The statistics route: 404 for an unknown user, otherwise the
        statistics of all of the user's rows. */
    method GetUserWordStats(username: string) returns (r: Result<Stats, Failure>)
      requires Valid()
      ensures username !in users <==> r == Failure(UserNotFound)
      ensures username in users ==>
        && r.Success?
        && r.value.totalWordsPracticed == |UserKeys(Snapshot(), users[username])|
        && exists list :: ListsRowsOf(Snapshot(), users[username], list) && r.value == UserStats(list)
    {
      if username !in users {
        return Failure(UserNotFound);
      }
      var list := ProgressOfUser(users[username]);
      StatsOfUser(Snapshot(), users[username], list, list);
      r := Success(UserStats(list));
    }

    /** The random-word route: some word of the filtered table, or 404 when
        no word passes the filter. */
    method GetRandomWord(level: Option<string>, excludeIds: seq<int>) returns (r: Result<Word, Failure>)
      ensures r.Success? ==> r.value in words && Eligible(r.value, level, excludeIds)
      ensures r.Failure? <==> forall w :: w in words ==> !Eligible(w, level, excludeIds)
      ensures r.Failure? ==> r.error == NoMatchingWord
    {
      var candidates := Candidates(words, level, excludeIds);
      if candidates == [] {
        r := Failure(NoMatchingWord);
      } else {
        assert candidates[0] in candidates;
        var w :| w in candidates;
        r := Success(w);
      }
    }
  }
}
