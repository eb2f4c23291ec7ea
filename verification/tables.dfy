/** The rows of the relational store that the checkout lifecycle reads and
    writes (users, languages, stories, the checkout log and the contributor
    table), the consistency the lifecycle keeps between them, and the two
    queries over the checkout log. */
module Tables {
  import opened Wrappers

  type StoryId = nat
  type UserId = nat

  /** Seven days in seconds: how long a checkout lasts. */
  const CheckoutPeriod: int := 7 * 24 * 60 * 60

  datatype Role = Author | Reader | Artist

  /** A user; an empty `penName` stands for NULL. */
  datatype User = User(username: string, penName: string, role: Role)

  /** A language and the repository its story files live in. */
  datatype Language = Language(name: string, repo: string)

  datatype Status = Available | CheckedOut | Finished

  /** A `stories` row. `filePath` is NULL until the remote file exists. */
  datatype Story = Story(
    title: string, theme: string, initialPlot: string,
    languageId: nat, genreId: nat, creatorId: UserId,
    filePath: Option<string>, status: Status, wordCount: nat)

  /** A `checkout_log` row; `checkedInAt` is NULL while the checkout is open. */
  datatype Entry = Entry(
    story: StoryId, user: UserId, checkedOutAt: int, checkedInAt: Option<int>,
    autoCheckin: bool, wordsAdded: nat)

  /** `pen_name || username`. */
  function AuthorName(u: User): (r: string)
    ensures r == u.penName || r == u.username
    ensures u.penName != "" ==> r == u.penName
    ensures r == "" <==> u.penName == "" && u.username == ""
  {
    if u.penName != "" then u.penName else u.username
  }

  predicate IsOpen(e: Entry) {
    e.checkedInAt.None?
  }

  predicate OpenFor(e: Entry, s: StoryId) {
    e.story == s && IsOpen(e)
  }

  /** An open checkout of story s by one of the users in who. */
  predicate Held(e: Entry, s: StoryId, who: set<UserId>) {
    OpenFor(e, s) && e.user in who
  }

  /** An entry closed by its holder's own check-in. */
  predicate ManualCheckin(e: Entry) {
    e.checkedInAt.Some? && !e.autoCheckin
  }

  /** The entry a check-in closes. */
  function CheckedIn(e: Entry, now: int, words: nat): Entry {
    e.(checkedInAt := Some(now), wordsAdded := words)
  }

  /** The log after closing entry `k` with a manual check-in. */
  function CheckInAt(l: seq<Entry>, k: nat, now: int, words: nat): seq<Entry>
    requires k < |l|
  {
    l[k := CheckedIn(l[k], now, words)]
  }

  /** The story table after a check-in of `words` words on story `s`. */
  function Credited(stories: map<StoryId, Story>, s: StoryId, words: nat): map<StoryId, Story>
    requires s in stories
  {
    stories[s := stories[s].(status := Available, wordCount := stories[s].wordCount + words)]
  }

  /** The log after reclaiming the entry at position `k`. */
  function ReclaimAt(l: seq<Entry>, k: nat, now: int): seq<Entry>
    requires k < |l|
  {
    l[k := Reclaimed(l[k], now)]
  }

  /** The story table after making story `s` available. */
  function Release(stories: map<StoryId, Story>, s: StoryId): map<StoryId, Story>
    requires s in stories
  {
    stories[s := stories[s].(status := Available)]
  }

  /** The entry the expiry sweep closes. */
  function Reclaimed(e: Entry, now: int): Entry {
    e.(checkedInAt := Some(now), autoCheckin := true)
  }

  ghost predicate NoneOpen(l: seq<Entry>, s: StoryId) {
    forall i :: 0 <= i < |l| ==> !OpenFor(l[i], s)
  }

  ghost predicate OnlyOpen(l: seq<Entry>, s: StoryId, k: nat) {
    k < |l| && OpenFor(l[k], s) && forall i :: 0 <= i < |l| && i != k ==> !OpenFor(l[i], s)
  }

  /** A story is checked out exactly when one log entry for it is open, and
      otherwise none is. */
  ghost predicate StatusAgrees(stories: map<StoryId, Story>, l: seq<Entry>) {
    forall s :: s in stories ==>
      if stories[s].status == CheckedOut then exists k: nat :: OnlyOpen(l, s, k) else NoneOpen(l, s)
  }

  /** Open entries still carry the column defaults. */
  ghost predicate OpenEntriesBlank(l: seq<Entry>) {
    forall i :: 0 <= i < |l| && IsOpen(l[i]) ==> l[i].wordsAdded == 0 && !l[i].autoCheckin
  }

  /** Sum of `words_added` over the entries of story s. */
  function WordsFor(l: seq<Entry>, s: StoryId): nat {
    if l == [] then 0
    else WordsFor(l[..|l| - 1], s) + (if l[|l| - 1].story == s then l[|l| - 1].wordsAdded else 0)
  }

  /** A story's `current_word_count` is the total its log entries record. */
  ghost predicate TotalsAgree(stories: map<StoryId, Story>, l: seq<Entry>) {
    forall s :: s in stories ==> stories[s].wordCount == WordsFor(l, s)
  }

  /** The contributor table holds exactly the (story, user) pairs of the
      entries closed by a check-in of their holder. */
  ghost predicate ContributorsAgree(c: set<(StoryId, UserId)>, l: seq<Entry>) {
    forall p :: p in c <==> exists i :: 0 <= i < |l| && ManualCheckin(l[i]) && (l[i].story, l[i].user) == p
  }

  ghost predicate Invariant(stories: map<StoryId, Story>, l: seq<Entry>, c: set<(StoryId, UserId)>) {
    StatusAgrees(stories, l) && OpenEntriesBlank(l) && TotalsAgree(stories, l) && ContributorsAgree(c, l)
  }

  /** Every story id in use, in the story table or the log, is at most
      `last`, the AUTOINCREMENT counter. */
  ghost predicate IdsBelow(stories: map<StoryId, Story>, l: seq<Entry>, last: StoryId) {
    (forall s :: s in stories ==> s <= last) && (forall i :: 0 <= i < |l| ==> l[i].story <= last)
  }

  /** Closing a log entry, by check-in or by expiry, uses no new id. */
  lemma CloseKeepsIds(stories: map<StoryId, Story>, l: seq<Entry>, k: nat, now: int, words: nat, last: StoryId)
    requires IdsBelow(stories, l, last) && k < |l| && l[k].story in stories
    ensures IdsBelow(Credited(stories, l[k].story, words), CheckInAt(l, k, now, words), last)
    ensures IdsBelow(Release(stories, l[k].story), ReclaimAt(l, k, now), last)
  {
  }

  /** `SELECT ... WHERE story_id = s AND checked_in_at IS NULL [AND user in who]
      ORDER BY checked_out_at DESC LIMIT 1`: the open entry with the latest
      checkout time, the later row among equal times. */
  function LatestOpen(l: seq<Entry>, s: StoryId, who: set<UserId>): (r: Option<nat>)
    ensures r.None? <==> forall i :: 0 <= i < |l| ==> !Held(l[i], s, who)
    ensures r.Some? ==> r.value < |l| && Held(l[r.value], s, who)
    ensures r.Some? ==> forall i :: 0 <= i < |l| && Held(l[i], s, who) ==>
      l[i].checkedOutAt <= l[r.value].checkedOutAt
    ensures r.Some? ==> forall i :: r.value < i < |l| && Held(l[i], s, who) ==>
      l[i].checkedOutAt < l[r.value].checkedOutAt
  {
    if l == [] then None
    else
      var last := |l| - 1;
      var prev := LatestOpen(l[..last], s, who);
      assert forall i :: 0 <= i < last ==> l[..last][i] == l[i];
      if Held(l[last], s, who) && (prev.None? || l[prev.value].checkedOutAt <= l[last].checkedOutAt)
      then Some(last)
      else prev
  }

  /** The checkout the expiry sweep reclaims: open, begun more than seven
      days before now, on a story whose language row exists (the sweep's
      query joins both tables). */
  predicate Expired(e: Entry, stories: map<StoryId, Story>, languages: map<nat, Language>, now: int) {
    IsOpen(e) && e.checkedOutAt + CheckoutPeriod < now
    && e.story in stories && stories[e.story].languageId in languages
  }

  /** The positions the sweep's query returns, in log order. */
  function ExpiredEntries(l: seq<Entry>, stories: map<StoryId, Story>, languages: map<nat, Language>, now: int)
    : (r: seq<nat>)
    ensures forall j :: 0 <= j < |r| ==> r[j] < |l| && Expired(l[r[j]], stories, languages, now)
    ensures forall i :: 0 <= i < |l| && Expired(l[i], stories, languages, now) ==> i in r
    ensures forall j, j' :: 0 <= j < j' < |r| ==> r[j] < r[j']
  {
    if l == [] then []
    else
      var last := |l| - 1;
      var prev := ExpiredEntries(l[..last], stories, languages, now);
      assert forall i :: 0 <= i < last ==> l[..last][i] == l[i];
      if Expired(l[last], stories, languages, now) then prev + [last] else prev
  }

  /** Number of open entries of story s. */
  function CountOpen(l: seq<Entry>, s: StoryId): nat {
    if l == [] then 0
    else CountOpen(l[..|l| - 1], s) + (if OpenFor(l[|l| - 1], s) then 1 else 0)
  }

  lemma {:induction false} NoneOpenCount(l: seq<Entry>, s: StoryId)
    requires NoneOpen(l, s)
    ensures CountOpen(l, s) == 0
  {
    if l != [] {
      NoneOpenCount(l[..|l| - 1], s);
    }
  }

  lemma {:induction false} OnlyOpenCount(l: seq<Entry>, s: StoryId, k: nat)
    requires OnlyOpen(l, s, k)
    ensures CountOpen(l, s) == 1
  {
    var front := l[..|l| - 1];
    if k == |l| - 1 {
      NoneOpenCount(front, s);
    } else {
      assert OnlyOpen(front, s, k);
      OnlyOpenCount(front, s, k);
    }
  }

  /** Under the invariant a story never has two open checkouts, and it is
      checked out exactly when it has one. */
  lemma CheckedOutIffOneOpen(stories: map<StoryId, Story>, l: seq<Entry>, s: StoryId)
    requires StatusAgrees(stories, l) && s in stories
    ensures CountOpen(l, s) <= 1
    ensures stories[s].status == CheckedOut <==> CountOpen(l, s) == 1
  {
    if stories[s].status == CheckedOut {
      var k: nat :| OnlyOpen(l, s, k);
      OnlyOpenCount(l, s, k);
    } else {
      NoneOpenCount(l, s);
    }
  }

  /** Under the invariant the latest-open lookup is never ambiguous: it
      finds the story's one open entry when its holder is among who, and
      nothing when the story is not checked out. */
  lemma LatestOpenIsTheCheckout(stories: map<StoryId, Story>, l: seq<Entry>, s: StoryId, who: set<UserId>)
    requires StatusAgrees(stories, l) && s in stories
    ensures stories[s].status != CheckedOut ==> LatestOpen(l, s, who).None?
    ensures stories[s].status == CheckedOut ==>
      exists k: nat :: OnlyOpen(l, s, k) && LatestOpen(l, s, who) == (if l[k].user in who then Some(k) else None)
  {
    if stories[s].status == CheckedOut {
      var k: nat :| OnlyOpen(l, s, k);
      assert LatestOpen(l, s, who) == (if l[k].user in who then Some(k) else None);
    }
  }

  lemma {:induction false} WordsForUpdate(l: seq<Entry>, k: nat, e: Entry, s: StoryId)
    requires k < |l| && e.story == l[k].story
    ensures WordsFor(l[k := e], s) + (if l[k].story == s then l[k].wordsAdded else 0)
      == WordsFor(l, s) + (if e.story == s then e.wordsAdded else 0)
  {
    var last := |l| - 1;
    if k < last {
      assert l[k := e][..last] == l[..last][k := e];
      WordsForUpdate(l[..last], k, e, s);
    } else {
      assert l[k := e][..last] == l[..last];
    }
  }

  lemma WordsForAppend(l: seq<Entry>, e: Entry, s: StoryId)
    ensures WordsFor(l + [e], s) == WordsFor(l, s) + (if e.story == s then e.wordsAdded else 0)
  {
    assert (l + [e])[..|l|] == l;
  }

  lemma {:induction false} WordsForAbsent(l: seq<Entry>, s: StoryId)
    requires forall i :: 0 <= i < |l| ==> l[i].story != s
    ensures WordsFor(l, s) == 0
  {
    if l != [] {
      WordsForAbsent(l[..|l| - 1], s);
    }
  }

  /** Checkout: an available story becomes checked out and the log gains one
      open entry for it; the invariant is kept. */
  lemma CheckoutKeepsInvariant(
    stories: map<StoryId, Story>, l: seq<Entry>, c: set<(StoryId, UserId)>,
    s: StoryId, u: UserId, now: int)
    requires Invariant(stories, l, c) && s in stories && stories[s].status == Available
    ensures Invariant(stories[s := stories[s].(status := CheckedOut)], l + [Entry(s, u, now, None, false, 0)], c)
  {
    var e := Entry(s, u, now, None, false, 0);
    var stories' := stories[s := stories[s].(status := CheckedOut)];
    var l' := l + [e];
    forall t | t in stories'
      ensures if stories'[t].status == CheckedOut then exists k: nat :: OnlyOpen(l', t, k) else NoneOpen(l', t)
    {
      if t == s {
        assert OnlyOpen(l', s, |l|);
      } else if stories[t].status == CheckedOut {
        var k: nat :| OnlyOpen(l, t, k);
        assert OnlyOpen(l', t, k);
      }
    }
    forall t | t in stories' ensures stories'[t].wordCount == WordsFor(l', t) {
      WordsForAppend(l, e, t);
    }
    forall p ensures p in c <==> exists i :: 0 <= i < |l'| && ManualCheckin(l'[i]) && (l'[i].story, l'[i].user) == p {
      if p in c {
        var i :| 0 <= i < |l| && ManualCheckin(l[i]) && (l[i].story, l[i].user) == p;
        assert l'[i] == l[i];
      }
    }
  }

  lemma CloseKeepsStatus(stories: map<StoryId, Story>, l: seq<Entry>, k: nat, e: Entry, st: Story)
    requires StatusAgrees(stories, l)
    requires k < |l| && IsOpen(l[k]) && l[k].story in stories
    requires e.story == l[k].story && !IsOpen(e) && st.status == Available
    ensures StatusAgrees(stories[l[k].story := st], l[k := e])
  {
    var s := l[k].story;
    var stories' := stories[s := st];
    var l' := l[k := e];
    forall t | t in stories'
      ensures if stories'[t].status == CheckedOut then exists j: nat :: OnlyOpen(l', t, j) else NoneOpen(l', t)
    {
      if t == s {
        assert OpenFor(l[k], s);
        assert stories[s].status == CheckedOut;
        var j: nat :| OnlyOpen(l, s, j);
        assert j == k;
      } else if stories[t].status == CheckedOut {
        var j: nat :| OnlyOpen(l, t, j);
        assert OnlyOpen(l', t, j);
      }
    }
  }

  /** Check-in: the holder's open entry is closed with the words added, the
      story becomes available with its total raised by the same count, and
      the pair (story, holder) is a contributor; the invariant is kept. */
  lemma CheckinKeepsInvariant(
    stories: map<StoryId, Story>, l: seq<Entry>, c: set<(StoryId, UserId)>,
    k: nat, now: int, words: nat)
    requires Invariant(stories, l, c)
    requires k < |l| && IsOpen(l[k]) && l[k].story in stories
    ensures Invariant(Credited(stories, l[k].story, words), CheckInAt(l, k, now, words), c + {(l[k].story, l[k].user)})
  {
    var s := l[k].story;
    var e := CheckedIn(l[k], now, words);
    var st := stories[s].(status := Available, wordCount := stories[s].wordCount + words);
    var stories' := Credited(stories, s, words);
    var l' := CheckInAt(l, k, now, words);
    var c' := c + {(s, l[k].user)};
    CloseKeepsStatus(stories, l, k, e, st);
    forall t | t in stories' ensures stories'[t].wordCount == WordsFor(l', t) {
      WordsForUpdate(l, k, e, t);
    }
    forall p ensures p in c' <==> exists i :: 0 <= i < |l'| && ManualCheckin(l'[i]) && (l'[i].story, l'[i].user) == p {
      if p == (s, l[k].user) {
        assert ManualCheckin(l'[k]);
      } else if p in c {
        var i :| 0 <= i < |l| && ManualCheckin(l[i]) && (l[i].story, l[i].user) == p;
        assert i != k && l'[i] == l[i];
      } else {
        forall i | 0 <= i < |l'| && ManualCheckin(l'[i]) ensures (l'[i].story, l'[i].user) != p {
          if i != k {
            assert l'[i] == l[i];
          }
        }
      }
    }
  }

  /** Expiry: an open entry is closed with the auto flag and its story
      becomes available; words and totals are untouched and the invariant
      is kept. */
  lemma ReclaimKeepsInvariant(
    stories: map<StoryId, Story>, l: seq<Entry>, c: set<(StoryId, UserId)>, k: nat, now: int)
    requires Invariant(stories, l, c)
    requires k < |l| && IsOpen(l[k]) && l[k].story in stories
    ensures Invariant(Release(stories, l[k].story), ReclaimAt(l, k, now), c)
  {
    var s := l[k].story;
    var e := Reclaimed(l[k], now);
    var stories' := Release(stories, s);
    var l' := ReclaimAt(l, k, now);
    CloseKeepsStatus(stories, l, k, e, stories'[s]);
    forall t | t in stories' ensures stories'[t].wordCount == WordsFor(l', t) {
      WordsForUpdate(l, k, e, t);
    }
    forall p ensures p in c <==> exists i :: 0 <= i < |l'| && ManualCheckin(l'[i]) && (l'[i].story, l'[i].user) == p {
      if p in c {
        var i :| 0 <= i < |l| && ManualCheckin(l[i]) && (l[i].story, l[i].user) == p;
        assert i != k && l'[i] == l[i];
      } else {
        forall i | 0 <= i < |l'| && ManualCheckin(l'[i]) ensures (l'[i].story, l'[i].user) != p {
          assert i != k && l'[i] == l[i];
        }
      }
    }
  }

  /** A new story row, available, with no words and no log entries, keeps
      the invariant. */
  lemma NewStoryKeepsInvariant(
    stories: map<StoryId, Story>, l: seq<Entry>, c: set<(StoryId, UserId)>, id: StoryId, st: Story)
    requires Invariant(stories, l, c) && id !in stories
    requires forall i :: 0 <= i < |l| ==> l[i].story != id
    requires st.status == Available && st.wordCount == 0
    ensures Invariant(stories[id := st], l, c)
  {
    WordsForAbsent(l, id);
  }

  /** Deleting a story row that no log entry names keeps the invariant:
      the rollback of a create whose remote file could not be made. */
  lemma DropStoryKeepsInvariant(stories: map<StoryId, Story>, l: seq<Entry>, c: set<(StoryId, UserId)>, id: StoryId)
    requires Invariant(stories, l, c)
    requires forall i :: 0 <= i < |l| ==> l[i].story != id
    ensures Invariant(stories - {id}, l, c)
  {
  }
}
