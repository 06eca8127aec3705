/** The order-event feed: an immutable pool served in pages, each page naming the cursor of
    the next one. */
module CursorFeed {

  import opened Wrappers
  import opened Strconv

  const DEFAULT_LIMIT: nat := 500
  const MAX_LIMIT: nat := 1000
  const PREFIX: string := "seq_"

  datatype Request = Request(get: bool, token: string, cursor: string, limit: string)

  datatype Response<Event> =
    | MethodNotAllowed
    | MissingToken
    | Page(events: seq<Event>, nextCursor: string, hasMore: bool)

  /** Anything but a number from 1 to 1000 leaves the default in place. */
  function ParseLimit(limit: string): (n: nat)
    ensures 1 <= n <= MAX_LIMIT
  {
    var (n, ok) := Atoi(limit);
    if limit != "" && ok && 0 < n <= MAX_LIMIT then n else DEFAULT_LIMIT
  }

  function TrimPrefix(s: string, prefix: string): string {
    if prefix <= s then s[|prefix|..] else s
  }

  /** The position a cursor names; an unparseable or negative one restarts the feed. */
  function ParseCursor(cursor: string): nat {
    var (n, ok) := Atoi(TrimPrefix(cursor, PREFIX));
    if !ok || n < 0 then 0 else n
  }

  function PrintCursor(n: nat): string {
    PREFIX + Format(n)
  }

  function StartIndex(cursor: string): nat {
    if cursor == "" then 0 else ParseCursor(cursor)
  }

  function Serve<Event>(pool: seq<Event>, request: Request): Response<Event> {
    if !request.get then MethodNotAllowed
    else if request.token == "" then MissingToken
    else
      var start := StartIndex(request.cursor);
      if start >= |pool| then Page([], "", false)
      else
        var end := Min(start + ParseLimit(request.limit), |pool|);
        var hasMore := end < |pool|;
        Page(pool[start..end], if hasMore then PrintCursor(end) else "", hasMore)
  }

  // ---------- cursors ----------

  /** A printed cursor parses back to its position, for every position a Go int can hold. */
  lemma CursorRoundTrip(n: nat)
    requires n <= MAX_INT
    ensures ParseCursor(PrintCursor(n)) == StartIndex(PrintCursor(n)) == n
    ensures ParseCursor(Format(n)) == n
  {
    AtoiOfFormat(n, 0);
    assert PrintCursor(n)[|PREFIX|..] == Format(n);
    assert !(PREFIX <= Format(n)) by {
      assert IsDigit(Format(n)[0]);
    }
  }

  lemma TrimOnce(rest: string)
    ensures TrimPrefix(PREFIX + rest, PREFIX) == rest
  {}

  /** The prefix is taken off once only, and a sign is honoured: such cursors restart. */
  lemma MalformedRestarts(n: nat)
    ensures ParseCursor(PREFIX + PrintCursor(n)) == 0
    ensures ParseCursor(PREFIX + "-" + Format(n)) == 0
    ensures n > MAX_INT ==> ParseCursor(PrintCursor(n)) == 0
  {
    hide Format, Value, Numeric, TrimPrefix;
    TrimOnce(PrintCursor(n));
    TrimOnce("-" + Format(n));
    TrimOnce(Format(n));
    ValueOfFormat(n);
    assert PREFIX + "-" + Format(n) == PREFIX + ("-" + Format(n));
    assert Atoi(PrintCursor(n)) == (0, false) by {
      assert !IsDigit(PrintCursor(n)[0]);
    }
    assert ("-" + Format(n))[1..] == Format(n);
  }

  /** Every accepted request, whatever its cursor and limit, gets a contiguous window. A next
      cursor is present exactly when events remain, and then names the first of those. */
  lemma PageBoundary<Event>(pool: seq<Event>, request: Request)
    requires |pool| <= MAX_INT && request.get && request.token != ""
    ensures var page, start := Serve(pool, request), StartIndex(request.cursor);
            && page.Page? && |page.events| == Min(ParseLimit(request.limit), Max(0, |pool| - start))
            && (page.events == [] <==> start >= |pool|)
            && (page.hasMore <==> page.nextCursor != "")
            && (page.hasMore <==> start + |page.events| < |pool|)
            && (start <= |pool| ==> pool[..start] + page.events == pool[..start + |page.events|])
            && (page.hasMore ==> StartIndex(page.nextCursor) == start + |page.events|)
  {
    hide Atoi, Format, ParseCursor, ParseLimit, PrintCursor;
    var page, start := Serve(pool, request), StartIndex(request.cursor);
    if start < |pool| {
      var end := start + |page.events|;
      assert pool[..end] == pool[..start] + pool[start..end];
      CursorRoundTrip(end);
    }
  }

  lemma CursorExample()
    ensures PrintCursor(500) == "seq_500"
  {
    assert Format(500) == Format(5) + "0" + "0";
  }

  /** A request is refused exactly for its method or its missing token, in this order. */
  lemma RefusedIff<Event>(pool: seq<Event>, request: Request)
    ensures Serve(pool, request).MethodNotAllowed? <==> !request.get
    ensures Serve(pool, request).MissingToken? <==> request.get && request.token == ""
  {}

  /** A limit from 1 to 1000 is taken as printed; zero, larger and negative ones, an absent one
      and what is no number mean 500. */
  lemma LimitMeans(n: nat)
    ensures ParseLimit(Format(n)) == if 1 <= n <= 1000 then n else 500
    ensures ParseLimit("-" + Format(n)) == 500 == ParseLimit("") == ParseLimit("x" + Format(n))
  {
    hide Format, Value, Numeric;
    ValueOfFormat(n);
    assert ("-" + Format(n))[1..] == Format(n);
    assert ("x" + Format(n))[0] == 'x' && !IsDigit('x');
    NotNumeric("x" + Format(n));
  }

  lemma NotNumeric(s: string)
    requires s != "" && !IsDigit(s[0])
    ensures !Numeric(s)
  {
    assert !AllDigits(s);
  }

  // ---------- walking the feed ----------

  /** One fetch: with any limit text, and either kept or thrown away to be retried. */
  datatype Fetch = Fetch(limit: string, kept: bool)

  datatype Client<Event> = Client(cursor: string, events: seq<Event>, pages: nat, finished: bool)

  function Follow<Event>(pool: seq<Event>, token: string, c: Client<Event>, f: Fetch): Client<Event> {
    if c.finished || !f.kept then c
    else
      match Serve(pool, Request(true, token, c.cursor, f.limit))
      case Page(events, nextCursor, hasMore) =>
        Client(nextCursor, c.events + events, c.pages + 1, !hasMore)
      case _ => c
  }

  function FollowAll<Event>(pool: seq<Event>, token: string, fetches: seq<Fetch>): Client<Event> {
    if fetches == [] then Client("", [], 0, false)
    else Follow(pool, token, FollowAll(pool, token, fetches[..|fetches| - 1]), fetches[|fetches| - 1])
  }

  function KeptCount(fetches: seq<Fetch>): nat {
    if fetches == [] then 0
    else KeptCount(fetches[..|fetches| - 1]) + if fetches[|fetches| - 1].kept then 1 else 0
  }

  ghost predicate ClientOk<Event>(pool: seq<Event>, c: Client<Event>) {
    && c.events <= pool
    && (c.finished ==> c.events == pool)
    && (!c.finished ==> StartIndex(c.cursor) == |c.events| && c.pages <= |c.events|)
  }

  lemma FollowOk<Event>(pool: seq<Event>, token: string, c: Client<Event>, f: Fetch)
    requires |pool| <= MAX_INT && token != "" && ClientOk(pool, c)
    ensures var c' := Follow(pool, token, c, f);
            && ClientOk(pool, c')
            && (!c'.finished && f.kept ==> c'.pages == c.pages + 1)
            && (c.finished ==> c'.finished)
  {
    hide Serve, StartIndex, ParseLimit;
    if !c.finished && f.kept {
      var request := Request(true, token, c.cursor, f.limit);
      PageBoundary(pool, request);
      var page := Serve(pool, request);
      assert c.events == pool[..|c.events|];
      assert c.events + page.events == pool[..|c.events| + |page.events|];
    }
  }

  /** Following next cursors, with any limits and any retries: at every moment the kept pages
      are a prefix of the pool in order, and each unfinished page added at least one event. */
  lemma {:induction false} FeedPrefix<Event>(pool: seq<Event>, token: string, fetches: seq<Fetch>)
    requires |pool| <= MAX_INT && token != ""
    ensures ClientOk(pool, FollowAll(pool, token, fetches))
    ensures !FollowAll(pool, token, fetches).finished ==>
              FollowAll(pool, token, fetches).pages == KeptCount(fetches)
  {
    if fetches != [] {
      hide Follow;
      var front, f := fetches[..|fetches| - 1], fetches[|fetches| - 1];
      FeedPrefix(pool, token, front);
      FollowOk(pool, token, FollowAll(pool, token, front), f);
      if !f.kept {
        RetryLeaves(pool, token, FollowAll(pool, token, front), f);
      }
    }
  }

  lemma RetryLeaves<Event>(pool: seq<Event>, token: string, c: Client<Event>, f: Fetch)
    requires !f.kept
    ensures Follow(pool, token, c, f) == c
  {}

  /** The walk ends: after one more kept page than there are events it has finished, and then
      it holds exactly the pool. */
  lemma FeedComplete<Event>(pool: seq<Event>, token: string, fetches: seq<Fetch>)
    requires |pool| <= MAX_INT && token != "" && KeptCount(fetches) > |pool|
    ensures FollowAll(pool, token, fetches).finished
    ensures FollowAll(pool, token, fetches).events == pool
  {
    FeedPrefix(pool, token, fetches);
  }

  /** Two consecutive pages are one page of the summed limit. */
  lemma PagesCompose<Event>(pool: seq<Event>, token: string, cursor: string, a: nat, b: nat)
    requires |pool| <= MAX_INT && token != "" && 1 <= a && 1 <= b && a + b <= MAX_LIMIT
    requires Serve(pool, Request(true, token, cursor, Format(a))).hasMore
    ensures var first := Serve(pool, Request(true, token, cursor, Format(a)));
            var second := Serve(pool, Request(true, token, first.nextCursor, Format(b)));
            Serve(pool, Request(true, token, cursor, Format(a + b)))
            == Page(first.events + second.events, second.nextCursor, second.hasMore)
  {
    hide Atoi, Format, ParseLimit, ParseCursor;
    LimitRoundTrip(a);
    LimitRoundTrip(b);
    LimitRoundTrip(a + b);
    var start := StartIndex(cursor);
    CursorRoundTrip(start + a);
    var end := Min(start + a + b, |pool|);
    assert pool[start..end] == pool[start..start + a] + pool[start + a..end];
  }

  lemma LimitRoundTrip(n: nat)
    requires 1 <= n <= MAX_LIMIT
    ensures ParseLimit(Format(n)) == n
  {
    AtoiOfFormat(n, 0);
  }
}
