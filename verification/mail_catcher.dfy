/**
 * The message-selection layer of the MailCatcher test module: ordering the
 * list the mail-catching service returns, picking the newest message, picking
 * the message with the highest id sent to an address, counting messages, and
 * building the service's base URI.
 *
 * The service's list endpoint is an input sequence of `Message` records (the
 * decoded JSON); fetching a full message by id is modelled by returning the
 * selected id. A failed assertion (`fail(...)`) is a `Failed` result that ends
 * the step.
 */
module MailCatcher {
  import opened PhpStrings

  /** One entry of the service's message list. */
  datatype Message = Message(id: int, createdAt: string, recipients: seq<string>)

  /** The reasons `fail(...)` is called with. */
  datatype Failure = NoMessagesReceived | NoMessagesSentTo(address: string) {
    /** The message `fail` reports; the address it names can be read back from it. */
    function Text(): (r: string)
      ensures |r| >= 12 && r[..12] == "No messages "
      ensures NoMessagesSentTo? ==> |r| == 20 + |address| && r[20..] == address
      ensures NoMessagesReceived? ==> |r| == 20
    {
      match this
      case NoMessagesReceived => "No messages received"
      case NoMessagesSentTo(address) => "No messages sent to " + address
    }
  }

  /** Different failures are reported with different texts. */
  lemma FailureTextInjective(f: Failure, g: Failure)
    requires f.Text() == g.Text()
    ensures f == g
  {
    // after "No messages " one text goes on with 'r', the other with 's'
    assert f.Text()[12] == g.Text()[12];
    if f.NoMessagesSentTo? && g.NoMessagesSentTo? {
      assert f.address == f.Text()[20..] == g.Text()[20..] == g.address;
    }
  }

  /** The id of the message that would be fetched, or the failure raised instead. */
  datatype Selection = Selected(id: int) | Failed(reason: Failure)

  // ---------------------------------------------------------------------------
  // Base URI

  /**
   * `trim(url, '/') . ':' . port`: a host part that neither starts nor ends
   * with a slash, a colon, and a port part that reads back as the port.
   */
  function BaseUri(url: string, port: int): (r: string)
    ensures var p := |DecimalString(port)|;
            && |r| > p
            && r[|r| - p - 1] == ':'
            && ParseDecimal(r[|r| - p..]) == Some(port)
            && (|r| == p + 1 || (r[0] != '/' && r[|r| - p - 2] != '/'))
  {
    TrimSlashesShape(url);
    DecimalStringRoundTrip(port);
    var host := TrimSlashes(url);
    var digits := DecimalString(port);
    var r := host + ":" + digits;
    assert |r| - |digits| == |host| + 1;
    assert r[|host| + 1..] == digits;
    assert r[|host|] == ':';
    assert host != [] ==> r[0] == host[0] && r[|host| - 1] == host[|host| - 1];
    r
  }

  /**
   * The base URI is the configured url with its leading and trailing slashes
   * removed, a colon, and the decimal text of the port.
   */
  lemma BaseUriShape(url: string, port: int)
    ensures exists host, i :: SlashPadded(url, host, i)
                              && (host == [] || (host[0] != '/' && host[|host| - 1] != '/'))
                              && BaseUri(url, port) == host + ":" + DecimalString(port)
  {
    TrimSlashesShape(url);
    var host := TrimSlashes(url);
    var i :| SlashPadded(url, host, i);
  }

  /** The HTTP client the module talks to the service through. */
  datatype HttpClient = HttpClient(baseUri: string)

  /** The module object: its configuration and the client `_initialize` creates. */
  class MailCatcherModule {
    const url: string
    const port: int
    var client: Option<HttpClient>

    constructor (url: string, port: int)
      ensures this.url == url && this.port == port && client == None
    {
      this.url := url;
      this.port := port;
      client := None;
    }

    /** `_initialize`: creates the client with the base URI built from the configuration. */
    method Initialize()
      modifies this
      ensures client == Some(HttpClient(BaseUri(url, port)))
    {
      client := Some(HttpClient(TrimSlashes(url) + ":" + DecimalString(port)));
    }
  }

  // ---------------------------------------------------------------------------
  // Ordering

  /**
   * `created_at` followed by the id's decimal text, with no separator: the
   * key starts with the timestamp, and what follows reads back as the id.
   */
  function SortKey(m: Message): (r: string)
    ensures |r| > |m.createdAt| && r[..|m.createdAt|] == m.createdAt
    ensures ParseDecimal(r[|m.createdAt|..]) == Some(m.id)
  {
    DecimalStringRoundTrip(m.id);
    var r := m.createdAt + DecimalString(m.id);
    assert r[|m.createdAt|..] == DecimalString(m.id);
    r
  }

  /**
   * With timestamp texts of one length, as ISO-8601 texts are, equal keys
   * mean equal timestamps and equal ids.
   */
  lemma EqualKeysSameMessageTime(a: Message, b: Message)
    requires |a.createdAt| == |b.createdAt| && SortKey(a) == SortKey(b)
    ensures a.createdAt == b.createdAt && a.id == b.id
  {
    var n := |a.createdAt|;
    assert a.createdAt == SortKey(a)[..n] == SortKey(b)[..n] == b.createdAt;
    assert Some(a.id) == ParseDecimal(SortKey(a)[n..]) == ParseDecimal(SortKey(b)[n..]) == Some(b.id);
  }

  /**
   * `$sortKeyA > $sortKeyB`. The keys start with an ISO-8601 timestamp, so
   * they are never numeric strings and PHP compares them byte by byte.
   */
  predicate NewerThan(a: Message, b: Message) {
    LexLess(SortKey(b), SortKey(a))
  }

  /** `messageSortCompare`: -1 puts `a` first, 1 puts `b` first; it never answers 0. */
  function Compare(a: Message, b: Message): (r: int)
    ensures r == -1 <==> LexLess(SortKey(b), SortKey(a))
    ensures r == 1 <==> !LexLess(SortKey(b), SortKey(a))
    ensures r != 0
  {
    if NewerThan(a, b) then -1 else 1
  }

  /** On different keys the comparator is antisymmetric, as `usort` expects. */
  lemma CompareAntisymmetric(a: Message, b: Message)
    requires SortKey(a) != SortKey(b)
    ensures Compare(a, b) == -Compare(b, a)
  {
    LexLessTotal(SortKey(a), SortKey(b));
    LexLessAsymmetric(SortKey(a), SortKey(b));
  }

  /** On equal keys it answers 1 both ways round: it never reports a tie. */
  lemma CompareOnEqualKeys(a: Message, b: Message)
    requires SortKey(a) == SortKey(b)
    ensures Compare(a, b) == 1 && Compare(b, a) == 1
  {
    LexLessIrreflexive(SortKey(a));
  }

  /** "Newer than" is transitive, so the comparator describes one ordering. */
  lemma CompareTransitive(a: Message, b: Message, c: Message)
    requires Compare(a, b) == -1 && Compare(b, c) == -1
    ensures Compare(a, c) == -1
  {
    LexLessTransitive(SortKey(c), SortKey(b), SortKey(a));
  }

  /**
   * With timestamps of one length, as ISO-8601 texts are, the message with
   * the later timestamp is ordered first whatever the ids.
   */
  lemma LaterTimestampSortsFirst(a: Message, b: Message)
    requires |a.createdAt| == |b.createdAt| && LexLess(b.createdAt, a.createdAt)
    ensures Compare(a, b) == -1 && Compare(b, a) == 1
  {
    LexLessEqualLengthPrefix(b.createdAt, a.createdAt, DecimalString(b.id), DecimalString(a.id));
    LexLessAsymmetric(SortKey(b), SortKey(a));
  }

  /**
   * With equal timestamps the ids are compared as text, not as numbers:
   * id 9 is ordered ahead of id 10.
   */
  lemma IdTieBreakIsTextual(createdAt: string, to: seq<string>)
    ensures Compare(Message(9, createdAt, to), Message(10, createdAt, to)) == -1
  {
    assert DecimalString(9) == "9";
    assert DecimalString(10) == "10";
    assert LexLess("10", "9");
    LexLessCommonPrefix(createdAt, "10", "9");
  }

  /** Every message is ordered no later than the one before it. */
  predicate NewestFirst(s: seq<Message>) {
    forall k :: 0 <= k < |s| - 1 ==> !NewerThan(s[k + 1], s[k])
  }

  /** No message of `s` is newer than `m`. */
  predicate IsNewest(m: Message, s: seq<Message>) {
    forall o :: o in s ==> !NewerThan(o, m)
  }

  /** Positions `lo` to `hi - 1` of `s` are ordered newest first. */
  predicate NewestFirstBetween(s: seq<Message>, lo: nat, hi: nat)
    requires lo <= hi <= |s|
  {
    forall k :: lo <= k < hi - 1 ==> !NewerThan(s[k + 1], s[k])
  }

  /**
   * One step of the insertion: `s[j]` is not newer-ordered after `s[j - 1]`,
   * so the two trade places and the ordered runs either side stay ordered.
   */
  lemma SwapStepKeepsOrder(s: seq<Message>, j: nat, i: nat)
    requires 0 < j <= i < |s|
    requires NewestFirstBetween(s, 0, j) && NewestFirstBetween(s, j, i + 1)
    requires j < i ==> !NewerThan(s[j + 1], s[j - 1])
    requires !NewerThan(s[j - 1], s[j])
    ensures var t := s[j - 1 := s[j]][j := s[j - 1]];
            && NewestFirstBetween(t, 0, j - 1)
            && NewestFirstBetween(t, j - 1, i + 1)
            && (0 < j - 1 < i ==> !NewerThan(t[j], t[j - 2]))
  {
    var t := s[j - 1 := s[j]][j := s[j - 1]];
    forall k | j - 1 <= k < i ensures !NewerThan(t[k + 1], t[k]) {
      if k == j - 1 {
      } else if k == j {
        assert t[k + 1] == s[j + 1] && t[k] == s[j - 1];
      } else {
        assert t[k + 1] == s[k + 1] && t[k] == s[k];
      }
    }
  }

  /** When the insertion stops, the first `i + 1` positions are ordered. */
  lemma InsertionDone(s: seq<Message>, j: nat, i: nat)
    requires j <= i < |s|
    requires NewestFirstBetween(s, 0, j) && NewestFirstBetween(s, j, i + 1)
    requires j > 0 ==> NewerThan(s[j - 1], s[j])
    ensures NewestFirstBetween(s, 0, i + 1)
  {
    if j > 0 {
      LexLessAsymmetric(SortKey(s[j]), SortKey(s[j - 1]));
    }
  }

  /** Exchanges two neighbouring messages. */
  method SwapWithPrevious(a: array<Message>, j: nat)
    requires 0 < j < a.Length
    modifies a
    ensures a[..] == old(a[..])[j - 1 := old(a[j])][j := old(a[j - 1])]
    ensures multiset(a[..]) == old(multiset(a[..]))
  {
    a[j - 1], a[j] := a[j], a[j - 1];
  }

  /**
   * `usort($messages, 'messageSortCompare')` on the decoded list: sorts the
   * array in place, moving each message ahead while the comparator answers 1
   * for its predecessor and it.
   */
  method SortNewestFirst(a: array<Message>)
    modifies a
    ensures NewestFirst(a[..])
    ensures multiset(a[..]) == old(multiset(a[..]))
  {
    var i := 0;
    while i < a.Length
      invariant 0 <= i <= a.Length
      invariant NewestFirstBetween(a[..], 0, i)
      invariant multiset(a[..]) == old(multiset(a[..]))
    {
      var j := i;
      while j > 0 && Compare(a[j - 1], a[j]) == 1
        invariant 0 <= j <= i
        invariant NewestFirstBetween(a[..], 0, j)
        invariant NewestFirstBetween(a[..], j, i + 1)
        invariant 0 < j < i ==> !NewerThan(a[j + 1], a[j - 1])
        invariant multiset(a[..]) == old(multiset(a[..]))
      {
        SwapStepKeepsOrder(a[..], j, i);
        SwapWithPrevious(a, j);
        j := j - 1;
      }
      InsertionDone(a[..], j, i);
      i := i + 1;
    }
  }

  /** `messages()`: the fetched list, sorted newest first. */
  method Messages(listed: seq<Message>) returns (sorted: seq<Message>)
    ensures multiset(sorted) == multiset(listed)
    ensures NewestFirst(sorted)
  {
    var a := new Message[|listed|](i requires 0 <= i < |listed| => listed[i]);
    assert a[..] == listed;
    SortNewestFirst(a);
    sorted := a[..];
  }

  /** The head of a list ordered newest first is a newest message of the list. */
  lemma {:induction false} NewestFirstHeadIsNewest(s: seq<Message>)
    requires NewestFirst(s) && |s| > 0
    ensures IsNewest(s[0], s)
    decreases |s|
  {
    if |s| > 1 {
      NewestFirstHeadIsNewest(s[1..]);
      forall o | o in s ensures !NewerThan(o, s[0]) {
        if o == s[0] {
          LexLessIrreflexive(SortKey(o));
        } else {
          assert o in s[1..];
          NotLessTransitive(SortKey(s[0]), SortKey(s[1]), SortKey(o));
        }
      }
    } else {
      LexLessIrreflexive(SortKey(s[0]));
    }
  }

  /** Two newest messages of one list have the same sort key. */
  lemma NewestIsUniqueByKey(m: Message, n: Message, s: seq<Message>)
    requires m in s && n in s && IsNewest(m, s) && IsNewest(n, s)
    ensures SortKey(m) == SortKey(n)
  {
    assert !NewerThan(n, m) && !NewerThan(m, n);
    LexLessTotal(SortKey(m), SortKey(n));
  }

  // ---------------------------------------------------------------------------
  // Selection

  /** `lastMessage`: the id of the first message of the sorted list. */
  method LastMessage(listed: seq<Message>) returns (r: Selection)
    ensures listed == [] <==> r == Failed(NoMessagesReceived)
    ensures r.Selected? ==> exists m :: m in listed && m.id == r.id && IsNewest(m, listed)
    ensures listed != [] ==> r.Selected?
  {
    var messages := Messages(listed);
    if |messages| == 0 {
      return Failed(NoMessagesReceived);
    }
    NewestFirstHeadIsNewest(messages);
    assert messages[0] in multiset(listed);
    assert forall o :: o in listed ==> o in multiset(messages);
    // array_shift
    var last := messages[0];
    messages := messages[1..];
    return Selected(last.id);
  }

  /** Some recipient of `recipients` contains `address` (`strpos(...) !== false`). */
  predicate AnyContains(recipients: seq<string>, address: string) {
    exists j :: 0 <= j < |recipients| && Contains(recipients[j], address)
  }

  /** `m` counts as sent to `address`: a substring match, not an exact one. */
  predicate SentTo(m: Message, address: string) {
    AnyContains(m.recipients, address)
  }

  lemma AnyContainsAppend(recipients: seq<string>, r: string, address: string)
    ensures AnyContains(recipients + [r], address)
            <==> AnyContains(recipients, address) || Contains(r, address)
  {
    var t := recipients + [r];
    if AnyContains(t, address) {
      var j :| 0 <= j < |t| && Contains(t[j], address);
      if j < |recipients| {
        assert recipients[j] == t[j];
      }
    }
    if AnyContains(recipients, address) {
      var j :| 0 <= j < |recipients| && Contains(recipients[j], address);
      assert t[j] == recipients[j];
    }
    if Contains(r, address) {
      assert t[|recipients|] == r;
    }
  }

  /** Some message of `s` was sent to `address`. */
  predicate AnySentTo(s: seq<Message>, address: string) {
    exists m :: m in s && SentTo(m, address)
  }

  /**
   * `x` is the id of a message of `s` sent to `address`, and no message of `s`
   * sent to `address` has a higher id.
   */
  predicate IsHighestIdSentTo(x: int, s: seq<Message>, address: string) {
    && (exists m :: m in s && SentTo(m, address) && m.id == x)
    && (forall m :: m in s && SentTo(m, address) ==> m.id <= x)
  }

  /** The id `id`, once for each of `recipients` that contains `address`. */
  function RecipientHits(id: int, recipients: seq<string>, address: string): seq<int>
    decreases |recipients|
  {
    if recipients == [] then []
    else
      var last := recipients[|recipients| - 1];
      RecipientHits(id, recipients[..|recipients| - 1], address)
        + (if Contains(last, address) then [id] else [])
  }

  /** The `$ids` array `lastMessageFrom` builds from the messages `s`, in order. */
  function MatchedIds(s: seq<Message>, address: string): (r: seq<int>)
    ensures forall x :: x in r ==> exists m :: m in s && SentTo(m, address) && m.id == x
    decreases |s|
  {
    if s == [] then []
    else
      var before := s[..|s| - 1];
      var last := s[|s| - 1];
      var earlier := MatchedIds(before, address);
      var hits := RecipientHits(last.id, last.recipients, address);
      assert forall x :: x in earlier + hits ==> exists m :: m in s && SentTo(m, address) && m.id == x by {
        RecipientHitsMembers(last.id, last.recipients, address);
        forall x | x in earlier + hits ensures exists m :: m in s && SentTo(m, address) && m.id == x {
          if x in earlier {
            var m :| m in before && SentTo(m, address) && m.id == x;
            assert m in s;
          } else {
            assert x in hits && last in s;
          }
        }
      }
      earlier + hits
  }

  lemma {:induction false} RecipientHitsMembers(id: int, recipients: seq<string>, address: string)
    ensures forall x :: x in RecipientHits(id, recipients, address) ==> x == id
    ensures RecipientHits(id, recipients, address) != [] <==> AnyContains(recipients, address)
    decreases |recipients|
  {
    if recipients != [] {
      var n := |recipients| - 1;
      RecipientHitsMembers(id, recipients[..n], address);
      AnyContainsAppend(recipients[..n], recipients[n], address);
      assert recipients[..n] + [recipients[n]] == recipients;
    }
  }

  /** An id is collected exactly when a message with that id was sent to the address. */
  lemma {:induction false} MatchedIdsMember(s: seq<Message>, address: string, x: int)
    ensures x in MatchedIds(s, address) <==> exists m :: m in s && SentTo(m, address) && m.id == x
    decreases |s|
  {
    if s != [] {
      var n := |s| - 1;
      var last := s[n];
      var hits := RecipientHits(last.id, last.recipients, address);
      MatchedIdsMember(s[..n], address, x);
      RecipientHitsMembers(last.id, last.recipients, address);
      assert MatchedIds(s, address) == MatchedIds(s[..n], address) + hits;
      if x in MatchedIds(s, address) {
        if x in MatchedIds(s[..n], address) {
          var m :| m in s[..n] && SentTo(m, address) && m.id == x;
          assert m in s;
        } else {
          assert x in hits;
          assert last in s;
        }
      }
      if exists m :: m in s && SentTo(m, address) && m.id == x {
        var m :| m in s && SentTo(m, address) && m.id == x;
        var k :| 0 <= k < |s| && s[k] == m;
        if k < n {
          assert s[..n][k] == m;
        } else {
          assert m == last && hits != [];
          assert hits[0] in hits && hits[0] == x;
        }
      }
    }
  }

  /** PHP's `max` over a non-empty array of integers. */
  function MaxOf(ids: seq<int>): (r: int)
    requires ids != []
    ensures r in ids
    ensures forall x :: x in ids ==> x <= r
    decreases |ids|
  {
    if |ids| == 1 then ids[0]
    else
      var rest := MaxOf(ids[1..]);
      assert forall x :: x in ids ==> x == ids[0] || x in ids[1..];
      if ids[0] > rest then ids[0] else rest
  }

  /**
   * The nested `foreach` of `lastMessageFrom`: appends a message's id to
   * `ids` once for every recipient that contains the address.
   */
  method CollectIds(messages: seq<Message>, address: string) returns (ids: seq<int>)
    ensures ids == MatchedIds(messages, address)
  {
    ids := [];
    for i := 0 to |messages|
      invariant ids == MatchedIds(messages[..i], address)
    {
      var message := messages[i];
      for j := 0 to |message.recipients|
        invariant ids == MatchedIds(messages[..i], address)
                         + RecipientHits(message.id, message.recipients[..j], address)
      {
        assert message.recipients[..j + 1][..j] == message.recipients[..j];
        if Strpos(message.recipients[j], address) != None {
          ids := ids + [message.id];
        }
      }
      assert message.recipients[..|message.recipients|] == message.recipients;
      assert messages[..i + 1][..i] == messages[..i];
    }
    assert messages[..|messages|] == messages;
  }

  /**
   * Collecting from any reordering `s` of `listed`: nothing is collected
   * exactly when no message was sent to the address, and otherwise the
   * largest collected id is the highest id sent to it.
   */
  lemma MatchedIdsSelectHighest(s: seq<Message>, listed: seq<Message>, address: string)
    requires multiset(s) == multiset(listed)
    ensures MatchedIds(s, address) == [] <==> !AnySentTo(listed, address)
    ensures MatchedIds(s, address) != []
            ==> IsHighestIdSentTo(MaxOf(MatchedIds(s, address)), listed, address)
  {
    var ids := MatchedIds(s, address);
    forall m ensures m in s <==> m in listed {
      assert m in s <==> m in multiset(s);
    }
    forall x ensures x in ids <==> exists m :: m in listed && SentTo(m, address) && m.id == x {
      MatchedIdsMember(s, address, x);
    }
    if AnySentTo(listed, address) {
      var m :| m in listed && SentTo(m, address);
      assert m.id in ids;
    }
    if ids != [] {
      var x := MaxOf(ids);
      forall m | m in listed && SentTo(m, address) ensures m.id <= x {
        assert m.id in ids;
      }
    }
  }

  /**
   * `lastMessageFrom`: the highest id among the messages with a recipient
   * containing `address`. It is chosen by id alone, so neither `created_at`
   * nor the order of the list plays a part.
   */
  method LastMessageFrom(listed: seq<Message>, address: string) returns (r: Selection)
    ensures listed == [] ==> r == Failed(NoMessagesReceived)
    ensures listed != [] && !AnySentTo(listed, address) ==> r == Failed(NoMessagesSentTo(address))
    ensures listed != [] && AnySentTo(listed, address)
            ==> r.Selected? && IsHighestIdSentTo(r.id, listed, address)
  {
    var messages := Messages(listed);
    if |messages| == 0 {
      return Failed(NoMessagesReceived);
    }
    var ids := CollectIds(messages, address);
    MatchedIdsSelectHighest(messages, listed, address);
    if |ids| > 0 {
      return Selected(MaxOf(ids));
    }
    return Failed(NoMessagesSentTo(address));
  }

  /** Two ids that are both the highest sent to an address are the same id. */
  lemma HighestIdSentToIsUnique(x: int, y: int, s: seq<Message>, address: string)
    requires IsHighestIdSentTo(x, s, address) && IsHighestIdSentTo(y, s, address)
    ensures x == y
  {
  }

  /** `seeEmailCount`: passes exactly when the service holds `expected` messages. */
  method SeeEmailCount(listed: seq<Message>, expected: int) returns (passed: bool)
    ensures passed <==> expected == |listed|
  {
    var messages := Messages(listed);
    assert |multiset(messages)| == |multiset(listed)|;
    passed := expected == |messages|;
  }
}
