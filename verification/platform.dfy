/** The story checkout lifecycle of the web server: creating a story with its
    remote file, checking a story out, checking a contribution in, the
    checkout-status query and the hourly sweep that reclaims checkouts older
    than seven days. The relational tables are fields of `Server`; the
    remote content store is a value field that the operations replace.
    Clocks and the host's availability are parameters. */
module Platform {
  import opened Wrappers
  import opened Tables
  import Words
  import Filename
  import Template
  import Decimal
  import CS = ContentStore

  /** The typed failures of the operations; each is one JSON error reply. */
  datatype Error =
    | MissingFields
    | StoryNotFound
    | NotAvailable
    | AuthorsOnly
    | ContentRequired
    | NotCheckedOut
    | WordCountOutOfRange(count: nat)
    | RemoteReadFailed
    | RemoteUpdateFailed
    | RemoteCreateFailed(reason: CS.Failure)
    | CreateFailed
    | CheckoutFailed
    | CheckinFailed

  /** The status code of each error reply. */
  function HttpStatus(e: Error): (r: nat)
    ensures r == 400 || r == 403 || r == 404 || r == 500
    ensures r == 404 <==> e == StoryNotFound
    ensures r == 403 <==> e == AuthorsOnly
  {
    match e
    case StoryNotFound => 404
    case AuthorsOnly => 403
    case MissingFields | NotAvailable | ContentRequired | NotCheckedOut | WordCountOutOfRange(_) => 400
    case _ => 500
  }

  const FailurePrefix: string := "Failed to "

  /** A reply text that does not begin with `F` is no failure report. */
  lemma Refusal(m: string)
    requires m != [] && m[0] != 'F'
    ensures !(FailurePrefix <= m)
  {
    assert FailurePrefix[0] == 'F';
  }

  /** The host's error text is abstracted to the kind of failure. */
  function ReasonText(f: CS.Failure): string {
    match f
    case Unreachable => "unreachable"
    case NotFound => "Not Found"
    case AlreadyExists => "sha wasn't supplied"
    case StaleSha => "sha does not match"
  }

  /** The text of each error reply. Every server-side failure says what
      failed ("Failed to ..."), and no refusal of the request does. */
  function Message(e: Error): (r: string)
    ensures HttpStatus(e) == 500 <==> FailurePrefix <= r
  {
    match e
    case MissingFields => Refusal("Missing required fields"); "Missing required fields"
    case StoryNotFound => Refusal("Story not found"); "Story not found"
    case NotAvailable => Refusal("Story is not available for checkout"); "Story is not available for checkout"
    case AuthorsOnly => Refusal("Only authors can check out stories"); "Only authors can check out stories"
    case ContentRequired => Refusal("Content is required"); "Content is required"
    case NotCheckedOut => Refusal("You have not checked out this story"); "You have not checked out this story"
    case WordCountOutOfRange(n) =>
      var m := "Content must be between " + Decimal.Show(Words.MinWords) + " and " + Decimal.Show(Words.MaxWords)
        + " words. You have " + Decimal.Show(n) + " words.";
      assert m[0] == 'C';
      Refusal(m);
      m
    case RemoteReadFailed => FailurePrefix + "fetch story from GitHub"
    case RemoteUpdateFailed => FailurePrefix + "update story in GitHub"
    case RemoteCreateFailed(f) => FailurePrefix + "create story in GitHub: " + ReasonText(f)
    case CreateFailed => FailurePrefix + "create story"
    case CheckoutFailed => FailurePrefix + "checkout story"
    case CheckinFailed => FailurePrefix + "checkin story"
  }

  /** The rejection of a contribution names its exact word count, which is
      read back from the digits before " words.". */
  lemma OutOfRangeMessageReportsCount(count: nat)
    ensures var m := Message(WordCountOutOfRange(count));
      var head := m[..|m| - |" words."|];
      Decimal.TrailingDigits(head) == |Decimal.Show(count)|
      && Decimal.Value(head[|head| - |Decimal.Show(count)|..]) == count
  {
    var m := Message(WordCountOutOfRange(count));
    var before := "Content must be between " + Decimal.Show(Words.MinWords) + " and "
      + Decimal.Show(Words.MaxWords) + " words. You have ";
    assert m == (before + Decimal.Show(count)) + " words.";
    assert m[..|m| - |" words."|] == before + Decimal.Show(count);
    assert before[|before| - 1] == ' ';
    Decimal.TrailingNumeral(before, count);
  }

  /** Where a story's text lives: its language's repository and the file
      path column. */
  datatype Location = Location(repo: string, file: Option<string>)

  /** Reply of the checkout-status query. */
  datatype CheckoutInfo =
    | NoCheckout
    | ActiveCheckout(byCurrentUser: bool, checkedOutBy: string, checkedOutAt: int, expiresAt: int)

  /** A freshly inserted story row. */
  function NewStory(title: string, theme: string, initialPlot: string, languageId: nat, genreId: nat, creator: UserId): Story {
    Story(title, theme, initialPlot, languageId, genreId, creator, None, Available, 0)
  }

  /** The log after reclaiming the entries at the positions in `marks`. */
  ghost function Swept(l: seq<Entry>, marks: seq<nat>, now: int): (r: seq<Entry>)
    ensures |r| == |l|
  {
    seq(|l|, i requires 0 <= i < |l| => if i in marks then Reclaimed(l[i], now) else l[i])
  }

  /** The stories of the entries at the positions in `marks`. */
  ghost function StoriesAt(l: seq<Entry>, marks: seq<nat>): set<StoryId> {
    set j | 0 <= j < |marks| && marks[j] < |l| :: l[marks[j]].story
  }

  /** The story table after making the stories in `rel` available. */
  ghost function Released(stories: map<StoryId, Story>, rel: set<StoryId>): (r: map<StoryId, Story>)
    ensures r.Keys == stories.Keys
  {
    map s | s in stories :: if s in rel then stories[s].(status := Available) else stories[s]
  }

  /** Reclaiming one more entry, not reclaimed before, changes the log at
      that position only, where it still holds the original entry. */
  lemma SweepStep(l: seq<Entry>, due: seq<nat>, n: nat, now: int)
    requires n < |due| && due[n] < |l|
    requires forall j :: 0 <= j < n ==> due[j] < due[n]
    ensures Swept(l, due[..n], now)[due[n]] == l[due[n]]
    ensures Swept(l, due[..n + 1], now) == ReclaimAt(Swept(l, due[..n], now), due[n], now)
  {
    assert due[..n + 1] == due[..n] + [due[n]];
    assert due[n] !in due[..n];
  }

  /** Releasing one more entry's story changes that story only. */
  lemma ReleaseStep(stories: map<StoryId, Story>, l: seq<Entry>, due: seq<nat>, n: nat)
    requires n < |due| && due[n] < |l| && l[due[n]].story in stories
    ensures Released(stories, StoriesAt(l, due[..n + 1]))
      == Release(Released(stories, StoriesAt(l, due[..n])), l[due[n]].story)
  {
    var s := l[due[n]].story;
    assert StoriesAt(l, due[..n + 1]) == StoriesAt(l, due[..n]) + {s} by {
      assert due[..n + 1] == due[..n] + [due[n]];
    }
  }

  /** A story is among those of the expired entries' positions exactly
      when one of its entries has expired. */
  lemma StoriesOfExpired(l: seq<Entry>, stories: map<StoryId, Story>, languages: map<nat, Language>, now: int, s: StoryId)
    ensures s in StoriesAt(l, ExpiredEntries(l, stories, languages, now)) <==>
      exists i :: 0 <= i < |l| && l[i].story == s && Expired(l[i], stories, languages, now)
  {
    var due := ExpiredEntries(l, stories, languages, now);
    if s in StoriesAt(l, due) {
      var j :| 0 <= j < |due| && due[j] < |l| && l[due[j]].story == s;
      assert Expired(l[due[j]], stories, languages, now);
    }
    if exists i :: 0 <= i < |l| && l[i].story == s && Expired(l[i], stories, languages, now) {
      var i :| 0 <= i < |l| && l[i].story == s && Expired(l[i], stories, languages, now);
      var j :| 0 <= j < |due| && due[j] == i;
      assert l[due[j]].story == s;
    }
  }

  /** Sweeping the positions of the expired entries reclaims exactly the
      expired entries and releases exactly the stories that have one. */
  lemma ExpiredSweep(l: seq<Entry>, stories: map<StoryId, Story>, languages: map<nat, Language>, now: int)
    ensures var due := ExpiredEntries(l, stories, languages, now);
      forall i :: 0 <= i < |l| ==>
        Swept(l, due, now)[i] == if Expired(l[i], stories, languages, now) then Reclaimed(l[i], now) else l[i]
    ensures var due := ExpiredEntries(l, stories, languages, now);
      forall s :: s in stories ==>
        Released(stories, StoriesAt(l, due))[s] ==
          if exists i :: 0 <= i < |l| && l[i].story == s && Expired(l[i], stories, languages, now)
          then stories[s].(status := Available) else stories[s]
  {
    var due := ExpiredEntries(l, stories, languages, now);
    forall i | 0 <= i < |l|
      ensures Swept(l, due, now)[i] == if Expired(l[i], stories, languages, now) then Reclaimed(l[i], now) else l[i]
    {
      assert i in due ==> Expired(l[i], stories, languages, now) by {
        if i in due {
          var j :| 0 <= j < |due| && due[j] == i;
        }
      }
    }
    forall s | s in stories
      ensures Released(stories, StoriesAt(l, due))[s] ==
        if exists i :: 0 <= i < |l| && l[i].story == s && Expired(l[i], stories, languages, now)
        then stories[s].(status := Available) else stories[s]
    {
      StoriesOfExpired(l, stories, languages, now, s);
    }
  }

  /** The check-in handler's own checks, in its order: content that is not
      blank, an open checkout of the story held by the user, and a word
      count within bounds. On success: the position of the latest such
      checkout, and the number of words. */
  function ValidateCheckin(l: seq<Entry>, storyId: StoryId, userId: UserId, content: string)
    : (r: Result<(nat, nat), Error>)
    ensures Words.AllSpace(content) ==> r == Err(ContentRequired)
    ensures !Words.AllSpace(content) && LatestOpen(l, storyId, {userId}).None? ==> r == Err(NotCheckedOut)
    ensures (!Words.AllSpace(content) && LatestOpen(l, storyId, {userId}).Some?
             && !Words.InRange(Words.WordCount(content))) ==>
      r == Err(WordCountOutOfRange(Words.WordCount(content)))
    ensures (!Words.AllSpace(content) && LatestOpen(l, storyId, {userId}).Some?
             && Words.InRange(Words.WordCount(content))) ==> r.Ok?
    ensures r.Ok? ==>
      && r.value.0 < |l| && Held(l[r.value.0], storyId, {userId})
      && (forall i :: 0 <= i < |l| && Held(l[i], storyId, {userId}) ==> l[i].checkedOutAt <= l[r.value.0].checkedOutAt)
      && r.value.1 == |Words.Tokens(content)| && Words.MinWords <= r.value.1 <= Words.MaxWords
  {
    if Words.Trim(content) == [] then Err(ContentRequired)
    else match LatestOpen(l, storyId, {userId})
      case None => Err(NotCheckedOut)
      case Some(k) =>
        var count := Words.WordCount(content);
        if !Words.InRange(count) then Err(WordCountOutOfRange(count))
        else
          Words.WordCountIsTokenCount(content);
          Ok((k, count))
  }

  /** Inserting a row and then setting its file path is inserting the row
      with that path; inserting it and deleting it again changes nothing. */
  lemma InsertThenPublish(stories: map<StoryId, Story>, id: StoryId, row: Story, file: Option<string>)
    requires id !in stories
    ensures stories[id := row][id := stories[id := row][id].(filePath := file)] == stories[id := row.(filePath := file)]
    ensures stories[id := row] - {id} == stories
  {
  }

  class Server {
    const users: map<UserId, User>
    const languages: map<nat, Language>
    const genres: map<nat, string>
    var stories: map<StoryId, Story>
    var ledger: seq<Entry>
    var contributors: set<(StoryId, UserId)>
    var remote: CS.Store
    /** The AUTOINCREMENT counter of `stories`: ids are never reused. */
    var lastStoryId: nat

    ghost predicate Valid()
      reads this
    {
      && Invariant(stories, ledger, contributors)
      && IdsBelow(stories, ledger, lastStoryId)
      && AllJoinable(stories)
      && CS.Valid(remote)
    }

    /** The rows a story row refers to exist. The store enforces the
        foreign keys of `stories`, so no other row can be inserted. */
    predicate Joinable(row: Story)
      reads this
    {
      row.languageId in languages && row.genreId in genres && row.creatorId in users
    }

    ghost predicate AllJoinable(st: map<StoryId, Story>)
      reads this
    {
      forall s :: s in st ==> Joinable(st[s])
    }

    /** Crediting or releasing a story changes no reference of its row. */
    lemma CreditKeepsJoinable(st: map<StoryId, Story>, s: StoryId, words: nat)
      requires AllJoinable(st) && s in st
      ensures AllJoinable(Credited(st, s, words)) && AllJoinable(Release(st, s))
    {
    }

    /** Every log entry names an existing user (the checkout handler looks
        the user up before inserting). */
    ghost predicate HoldersKnown()
      reads this
    {
      forall i :: 0 <= i < |ledger| ==> ledger[i].user in users
    }

    constructor (users: map<UserId, User>, languages: map<nat, Language>, genres: map<nat, string>, remote: CS.Store)
      requires CS.Valid(remote)
      ensures Valid() && HoldersKnown()
      ensures this.users == users && this.languages == languages && this.genres == genres
      ensures stories == map[] && ledger == [] && contributors == {} && this.remote == remote && lastStoryId == 0
    {
      this.users := users;
      this.languages := languages;
      this.genres := genres;
      this.remote := remote;
      stories := map[];
      ledger := [];
      contributors := {};
      lastStoryId := 0;
    }

    /** The check-in handler's story query, which joins the story with its
        language, genre and creator rows: nothing when any is missing. */
    function Locate(storyId: StoryId): (r: Option<Location>)
      reads this
      ensures Valid() ==> (r.Some? <==> storyId in stories)
      ensures r.Some? ==>
        && storyId in stories && stories[storyId].languageId in languages
        && r.value.repo == languages[stories[storyId].languageId].repo
        && r.value.file == stories[storyId].filePath
    {
      if storyId in stories && stories[storyId].languageId in languages
        && stories[storyId].genreId in genres && stories[storyId].creatorId in users
      then Some(Location(languages[stories[storyId].languageId].repo, stories[storyId].filePath))
      else None
    }

    /** The remote file of a located story with a path. */
    function StoryFile(storyId: StoryId): Option<CS.Path>
      reads this
    {
      match Locate(storyId)
      case Some(Location(repo, Some(file))) => Some(CS.Path(repo, file))
      case _ => None
    }

    /** Inserts the row of a new, available story under the next id. */
    method InsertStory(row: Story) returns (id: StoryId)
      requires Valid() && row.status == Available && row.wordCount == 0 && Joinable(row)
      modifies this
      ensures Valid()
      ensures id == lastStoryId == old(lastStoryId) + 1 && id !in old(stories)
      ensures forall i :: 0 <= i < |ledger| ==> ledger[i].story != id
      ensures stories == old(stories)[id := row]
      ensures ledger == old(ledger) && contributors == old(contributors) && remote == old(remote)
    {
      id := lastStoryId + 1;
      NewStoryKeepsInvariant(stories, ledger, contributors, id, row);
      stories := stories[id := row];
      lastStoryId := id;
    }

    /** Records the path of story `id`'s file once the host has made it;
        `store` is the remote state after the creation. */
    method AttachFile(id: StoryId, filename: string, store: CS.Store)
      requires Valid() && id in stories && CS.Valid(store)
      modifies this
      ensures Valid()
      ensures stories == old(stories)[id := old(stories)[id].(filePath := Some(filename))]
      ensures remote == store
      ensures ledger == old(ledger) && contributors == old(contributors) && lastStoryId == old(lastStoryId)
    {
      stories := stories[id := stories[id].(filePath := Some(filename))];
      remote := store;
    }

    /** Deletes story `id`'s row: the rollback of a failed create. */
    method DropStory(id: StoryId)
      requires Valid() && forall i :: 0 <= i < |ledger| ==> ledger[i].story != id
      modifies this
      ensures Valid()
      ensures stories == old(stories) - {id}
      ensures ledger == old(ledger) && contributors == old(contributors)
      ensures remote == old(remote) && lastStoryId == old(lastStoryId)
    {
      DropStoryKeepsInvariant(stories, ledger, contributors, id);
      stories := stories - {id};
    }

    /** The remote half of story creation for the row `id` just inserted:
        make its file from the story card, then record the path, or delete
        the row when the host refuses. */
    method PublishStory(
      id: StoryId, title: string, theme: string, initialPlot: string, languageId: nat, genreId: nat,
      userId: UserId, reachable: bool)
      returns (r: Result<StoryId, Error>)
      requires Valid() && id in stories && forall i :: 0 <= i < |ledger| ==> ledger[i].story != id
      requires genreId in genres && languageId in languages && userId in users
      modifies this
      ensures Valid()
      ensures ledger == old(ledger) && contributors == old(contributors) && lastStoryId == old(lastStoryId)
      ensures var filename := Filename.GenerateFilename(title, id);
        var path := CS.Path(languages[languageId].repo, filename);
        var card := Template.StoryCard(title, genres[genreId], languages[languageId].name,
          AuthorName(users[userId]), theme, initialPlot);
        && (r.Ok? <==> reachable && path !in old(remote).files)
        && (r.Ok? ==>
          && r.value == id
          && stories == old(stories)[id := old(stories)[id].(filePath := Some(filename))]
          && remote == CS.Put(old(remote), path, Template.FormatStoryContent(card, initialPlot)))
        && (r.Err? ==> r.error.RemoteCreateFailed? && stories == old(stories) - {id} && remote == old(remote))
    {
      var filename := Filename.GenerateFilename(title, id);
      var card := Template.StoryCard(title, genres[genreId], languages[languageId].name,
        AuthorName(users[userId]), theme, initialPlot);
      var path := CS.Path(languages[languageId].repo, filename);
      var (created, after) := CS.CreateStoryFile(remote, path, Template.FormatStoryContent(card, initialPlot), reachable);
      if created.Ok? {
        AttachFile(id, filename, after);
        r := Ok(id);
      } else {
        DropStory(id);
        r := Err(RemoteCreateFailed(created.error));
      }
    }

    /** `POST /api/stories`. The row is inserted before the remote file is
        made, and a refused creation deletes it again. The insert itself is
        refused when the language, genre or user row is missing, since the
        store enforces the foreign keys of `stories`. */
    method CreateStory(
      title: string, theme: string, initialPlot: string, languageId: nat, genreId: nat,
      userId: UserId, reachable: bool)
      returns (r: Result<StoryId, Error>)
      requires Valid()
      modifies this
      ensures Valid()
      ensures ledger == old(ledger) && contributors == old(contributors)
      ensures title == "" || theme == "" || languageId == 0 || genreId == 0 ==>
        r == Err(MissingFields)
      ensures (title != "" && theme != "" && languageId != 0 && genreId != 0
               && (genreId !in genres || languageId !in languages || userId !in users)) ==>
        r == Err(CreateFailed)
      ensures r == Err(MissingFields) || r == Err(CreateFailed) ==>
        stories == old(stories) && remote == old(remote) && lastStoryId == old(lastStoryId)
      ensures (title != "" && theme != "" && languageId != 0 && genreId != 0
               && genreId in genres && languageId in languages && userId in users) ==>
        var filename := Filename.GenerateFilename(title, lastStoryId);
        var path := CS.Path(languages[languageId].repo, filename);
        var card := Template.StoryCard(title, genres[genreId], languages[languageId].name,
          AuthorName(users[userId]), theme, initialPlot);
        && lastStoryId == old(lastStoryId) + 1 && lastStoryId !in old(stories)
        && (r.Ok? <==> reachable && path !in old(remote).files)
        && (r.Ok? ==>
          && r.value == lastStoryId
          && stories == old(stories)[r.value := NewStory(title, theme, initialPlot, languageId, genreId, userId)
            .(filePath := Some(filename))]
          && remote == CS.Put(old(remote), path, Template.FormatStoryContent(card, initialPlot)))
        && (r.Err? ==> r.error.RemoteCreateFailed? && stories == old(stories) && remote == old(remote))
    {
      if title == "" || theme == "" || languageId == 0 || genreId == 0 {
        return Err(MissingFields);
      }
      if genreId !in genres || languageId !in languages || userId !in users {
        return Err(CreateFailed);
      }
      var row := NewStory(title, theme, initialPlot, languageId, genreId, userId);
      var id := InsertStory(row);
      InsertThenPublish(old(stories), id, row, Some(Filename.GenerateFilename(title, id)));
      r := PublishStory(id, title, theme, initialPlot, languageId, genreId, userId, reachable);
    }

    /** `POST /api/stories/:id/checkout`. The reply's id is the new log
        row's, i.e. its 1-based position, rows never being deleted. */
    method Checkout(storyId: StoryId, userId: UserId, now: int) returns (r: Result<nat, Error>)
      requires Valid()
      modifies this
      ensures Valid()
      ensures old(HoldersKnown()) ==> HoldersKnown()
      ensures storyId !in old(stories) ==> r == Err(StoryNotFound)
      ensures storyId in old(stories) && old(stories)[storyId].status != Available ==> r == Err(NotAvailable)
      ensures storyId in old(stories) && old(stories)[storyId].status == Available && userId !in users ==>
        r == Err(CheckoutFailed)
      ensures (storyId in old(stories) && old(stories)[storyId].status == Available && userId in users
               && users[userId].role != Author) ==> r == Err(AuthorsOnly)
      ensures r.Ok? <==>
        (&& storyId in old(stories) && old(stories)[storyId].status == Available
         && userId in users && users[userId].role == Author)
      ensures r.Err? ==> stories == old(stories) && ledger == old(ledger)
      ensures r.Ok? ==>
        && storyId in old(stories)
        && stories == old(stories)[storyId := old(stories)[storyId].(status := CheckedOut)]
        && ledger == old(ledger) + [Entry(storyId, userId, now, None, false, 0)]
        && r.value == |ledger|
      ensures contributors == old(contributors) && remote == old(remote) && lastStoryId == old(lastStoryId)
    {
      if storyId !in stories {
        return Err(StoryNotFound);
      }
      if stories[storyId].status != Available {
        return Err(NotAvailable);
      }
      if userId !in users {
        return Err(CheckoutFailed);
      }
      if users[userId].role != Author {
        return Err(AuthorsOnly);
      }
      CheckoutKeepsInvariant(stories, ledger, contributors, storyId, userId, now);
      stories := stories[storyId := stories[storyId].(status := CheckedOut)];
      ledger := ledger + [Entry(storyId, userId, now, None, false, 0)];
      r := Ok(|ledger|);
    }

    /** Closes open checkout `k` with a manual check-in of `words` words:
        the story gets the words and becomes available, the holder becomes
        one of its contributors, and `store` is the remote state after the
        merged file was written. */
    method CommitCheckin(k: nat, now: int, words: nat, store: CS.Store)
      requires Valid() && CS.Valid(store)
      requires k < |ledger| && IsOpen(ledger[k]) && ledger[k].story in stories
      modifies this
      ensures Valid()
      ensures old(HoldersKnown()) ==> HoldersKnown()
      ensures ledger == CheckInAt(old(ledger), k, now, words)
      ensures stories == Credited(old(stories), old(ledger)[k].story, words)
      ensures contributors == old(contributors) + {(old(ledger)[k].story, old(ledger)[k].user)}
      ensures remote == store && lastStoryId == old(lastStoryId)
    {
      var s := ledger[k].story;
      CheckinKeepsInvariant(stories, ledger, contributors, k, now, words);
      CreditKeepsJoinable(stories, s, words);
      CloseKeepsIds(stories, ledger, k, now, words, lastStoryId);
      contributors := contributors + {(s, ledger[k].user)};
      ledger := CheckInAt(ledger, k, now, words);
      stories := Credited(stories, s, words);
      remote := store;
    }

    /** The first of the check-in's lookup and remote steps that fails, if
        any: the story join, the file path, the read, the holder's name and
        the write. The write names the token just read, so the host refuses
        it only when unreachable. */
    function RemoteFault(storyId: StoryId, userId: UserId, readReachable: bool, writeReachable: bool): (r: Option<Error>)
      reads this
      ensures r.None? <==>
        (&& StoryFile(storyId).Some? && StoryFile(storyId).value in remote.files
         && readReachable && userId in users && writeReachable)
      ensures Locate(storyId).None? ==> r == Some(CheckinFailed)
      ensures Locate(storyId).Some? && Locate(storyId).value.file.None? ==> r == Some(RemoteReadFailed)
      ensures (StoryFile(storyId).Some?
               && CS.GetStoryContent(remote, StoryFile(storyId).value, readReachable).Err?) ==>
        r == Some(RemoteReadFailed)
      ensures (StoryFile(storyId).Some?
               && CS.GetStoryContent(remote, StoryFile(storyId).value, readReachable).Ok? && userId !in users) ==>
        r == Some(CheckinFailed)
      ensures (StoryFile(storyId).Some?
               && CS.GetStoryContent(remote, StoryFile(storyId).value, readReachable).Ok? && userId in users
               && !writeReachable) ==>
        r == Some(RemoteUpdateFailed)
    {
      match Locate(storyId)
      case None => Some(CheckinFailed)
      case Some(Location(_, None)) => Some(RemoteReadFailed)
      case Some(Location(repo, Some(file))) =>
        if CS.GetStoryContent(remote, CS.Path(repo, file), readReachable).Err? then Some(RemoteReadFailed)
        else if userId !in users then Some(CheckinFailed)
        else if !writeReachable then Some(RemoteUpdateFailed)
        else None
    }

    /** The remote half of a check-in of open checkout `k`: read the story
        file, append the contribution and write it back with the token
        read, and only then commit the check-in to the tables. */
    method MergeContribution(
      storyId: StoryId, userId: UserId, k: nat, count: nat, content: string, now: int, today: string,
      readReachable: bool, writeReachable: bool)
      returns (r: Result<nat, Error>)
      requires Valid() && k < |ledger| && Held(ledger[k], storyId, {userId})
      modifies this
      ensures Valid()
      ensures old(HoldersKnown()) ==> HoldersKnown()
      ensures old(RemoteFault(storyId, userId, readReachable, writeReachable)).Some? ==>
        && r == Err(old(RemoteFault(storyId, userId, readReachable, writeReachable)).value)
        && stories == old(stories) && ledger == old(ledger) && contributors == old(contributors)
        && remote == old(remote)
      ensures old(RemoteFault(storyId, userId, readReachable, writeReachable)).None? ==>
        var path := old(StoryFile(storyId)).value;
        var prior := old(remote).files[path];
        && r == Ok(count)
        && ledger == CheckInAt(old(ledger), k, now, count)
        && storyId in old(stories)
        && stories == Credited(old(stories), storyId, count)
        && contributors == old(contributors) + {(storyId, userId)}
        && remote == CS.Put(old(remote), path,
             Template.AppendContribution(prior.content, AuthorName(users[userId]), today, count, content))
      ensures lastStoryId == old(lastStoryId)
    {
      var loc := Locate(storyId);
      if loc.None? {
        return Err(CheckinFailed);
      }
      if loc.value.file.None? {
        return Err(RemoteReadFailed);
      }
      var path := CS.Path(loc.value.repo, loc.value.file.value);
      var read := CS.GetStoryContent(remote, path, readReachable);
      if read.Err? {
        return Err(RemoteReadFailed);
      }
      if userId !in users {
        return Err(CheckinFailed);
      }
      var merged := Template.AppendContribution(read.value.content, AuthorName(users[userId]), today, count, content);
      var (written, after) := CS.UpdateStoryFile(remote, path, merged, read.value.sha, writeReachable);
      if written.Err? {
        return Err(RemoteUpdateFailed);
      }
      CommitCheckin(k, now, count, after);
      r := Ok(count);
    }

    /** `POST /api/stories/:id/checkin`. `today` is the date stamped in the
        contribution heading; `readReachable` and `writeReachable` say
        whether the host answers the read and the write. Every failure
        leaves the tables and the remote store as they were. */
    method Checkin(
      storyId: StoryId, userId: UserId, content: string, now: int, today: string,
      readReachable: bool, writeReachable: bool)
      returns (r: Result<nat, Error>)
      requires Valid()
      modifies this
      ensures Valid()
      ensures old(HoldersKnown()) ==> HoldersKnown()
      ensures lastStoryId == old(lastStoryId)
      ensures var v := ValidateCheckin(old(ledger), storyId, userId, content);
        v.Err? ==>
        && r == Err(v.error)
        && stories == old(stories) && ledger == old(ledger) && contributors == old(contributors) && remote == old(remote)
      ensures var v := ValidateCheckin(old(ledger), storyId, userId, content);
        var fault := old(RemoteFault(storyId, userId, readReachable, writeReachable));
        v.Ok? && fault.Some? ==>
        && r == Err(fault.value)
        && stories == old(stories) && ledger == old(ledger) && contributors == old(contributors) && remote == old(remote)
      ensures var v := ValidateCheckin(old(ledger), storyId, userId, content);
        var fault := old(RemoteFault(storyId, userId, readReachable, writeReachable));
        v.Ok? && fault.None? ==>
        var k := v.value.0;
        var count := v.value.1;
        var path := old(StoryFile(storyId)).value;
        var prior := old(remote).files[path];
        && r == Ok(count)
        && ledger == CheckInAt(old(ledger), k, now, count)
        && storyId in old(stories)
        && stories == Credited(old(stories), storyId, count)
        && contributors == old(contributors) + {(storyId, userId)}
        && remote == CS.Put(old(remote), path,
             Template.AppendContribution(prior.content, AuthorName(users[userId]), today, count, content))
    {
      var v := ValidateCheckin(ledger, storyId, userId, content);
      if v.Err? {
        return Err(v.error);
      }
      r := MergeContribution(storyId, userId, v.value.0, v.value.1, content, now, today, readReachable, writeReachable);
    }

    /** `GET /api/stories/:id/checkout-status`: the latest open checkout of
        the story whose holder has a user row, and its deadline seven days
        after it began. */
    function CheckoutStatus(storyId: StoryId, userId: UserId): (r: CheckoutInfo)
      reads this
      ensures r.NoCheckout? <==> forall i :: 0 <= i < |ledger| ==> !Held(ledger[i], storyId, users.Keys)
      ensures r.ActiveCheckout? ==> r.expiresAt == r.checkedOutAt + CheckoutPeriod
      ensures r.ActiveCheckout? ==>
        exists i :: (0 <= i < |ledger| && Held(ledger[i], storyId, users.Keys)
          && r.checkedOutAt == ledger[i].checkedOutAt
          && r.byCurrentUser == (ledger[i].user == userId)
          && r.checkedOutBy == AuthorName(users[ledger[i].user])
          && forall j :: 0 <= j < |ledger| && Held(ledger[j], storyId, users.Keys) ==>
               ledger[j].checkedOutAt <= ledger[i].checkedOutAt)
    {
      match LatestOpen(ledger, storyId, users.Keys)
      case None => NoCheckout
      case Some(i) =>
        var e := ledger[i];
        ActiveCheckout(e.user == userId, AuthorName(users[e.user]), e.checkedOutAt, e.checkedOutAt + CheckoutPeriod)
    }

    /** The status query agrees with the story's status column: it reports a
        checkout exactly when the story is checked out, and then names the
        story's one holder and that checkout's deadline. */
    lemma StatusMatchesStoryTable(storyId: StoryId, userId: UserId)
      requires Valid() && HoldersKnown() && storyId in stories
      ensures CheckoutStatus(storyId, userId).ActiveCheckout? <==> stories[storyId].status == CheckedOut
      ensures stories[storyId].status == CheckedOut ==>
        exists k: nat :: (OnlyOpen(ledger, storyId, k)
          && CheckoutStatus(storyId, userId).byCurrentUser == (ledger[k].user == userId)
          && CheckoutStatus(storyId, userId).expiresAt == ledger[k].checkedOutAt + CheckoutPeriod)
    {
      LatestOpenIsTheCheckout(stories, ledger, storyId, users.Keys);
      if stories[storyId].status == CheckedOut {
        var k: nat :| OnlyOpen(ledger, storyId, k);
        assert ledger[k].user in users.Keys;
      }
    }

    /** Closes open checkout `k` as an automatic check-in and makes its
        story available. */
    method Reclaim(k: nat, now: int)
      requires Valid() && k < |ledger| && IsOpen(ledger[k]) && ledger[k].story in stories
      modifies this
      ensures Valid()
      ensures old(HoldersKnown()) ==> HoldersKnown()
      ensures ledger == ReclaimAt(old(ledger), k, now)
      ensures stories == Release(old(stories), old(ledger)[k].story)
      ensures contributors == old(contributors) && remote == old(remote) && lastStoryId == old(lastStoryId)
    {
      var s := ledger[k].story;
      ReclaimKeepsInvariant(stories, ledger, contributors, k, now);
      CreditKeepsJoinable(stories, s, 0);
      CloseKeepsIds(stories, ledger, k, now, 0, lastStoryId);
      ledger := ReclaimAt(ledger, k, now);
      stories := Release(stories, s);
    }

    /** Reclaims the open checkouts at the increasing positions `due`, one
        after the other. */
    method ReclaimAll(due: seq<nat>, now: int)
      requires Valid()
      requires forall j :: 0 <= j < |due| ==> due[j] < |ledger| && IsOpen(ledger[due[j]]) && ledger[due[j]].story in stories
      requires forall j, j' :: 0 <= j < j' < |due| ==> due[j] < due[j']
      modifies this
      ensures Valid()
      ensures old(HoldersKnown()) ==> HoldersKnown()
      ensures ledger == Swept(old(ledger), due, now)
      ensures stories == Released(old(stories), StoriesAt(old(ledger), due))
      ensures contributors == old(contributors) && remote == old(remote) && lastStoryId == old(lastStoryId)
    {
      ghost var l0, s0 := ledger, stories;
      var n := 0;
      while n < |due|
        invariant 0 <= n <= |due|
        invariant Valid()
        invariant old(HoldersKnown()) ==> HoldersKnown()
        invariant ledger == Swept(l0, due[..n], now)
        invariant stories == Released(s0, StoriesAt(l0, due[..n]))
        invariant contributors == old(contributors) && remote == old(remote) && lastStoryId == old(lastStoryId)
      {
        var k := due[n];
        SweepStep(l0, due, n, now);
        ReleaseStep(s0, l0, due, n);
        Reclaim(k, now);
        n := n + 1;
      }
      assert due[..n] == due;
    }

    /** The hourly auto check-in: every expired checkout is closed with the
        auto flag and its story made available again; nothing else changes. */
    method AutoCheckin(now: int)
      requires Valid()
      modifies this
      ensures Valid()
      ensures old(HoldersKnown()) ==> HoldersKnown()
      ensures |ledger| == |old(ledger)|
      ensures forall i :: 0 <= i < |ledger| ==>
        ledger[i] == if Expired(old(ledger)[i], old(stories), languages, now)
                     then Reclaimed(old(ledger)[i], now) else old(ledger)[i]
      ensures stories.Keys == old(stories).Keys
      ensures forall s :: s in stories ==>
        stories[s] == if exists i :: 0 <= i < |old(ledger)| && old(ledger)[i].story == s
                                     && Expired(old(ledger)[i], old(stories), languages, now)
                      then old(stories)[s].(status := Available) else old(stories)[s]
      ensures contributors == old(contributors) && remote == old(remote) && lastStoryId == old(lastStoryId)
    {
      ExpiredSweep(ledger, stories, languages, now);
      var due := ExpiredEntries(ledger, stories, languages, now);
      ReclaimAll(due, now);
    }
  }
}
