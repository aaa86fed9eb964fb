/** Bisecting range fetch of the torrent sync (`sidecar/src/sync.rs`).
    A backend is a function of the request. No two requests of one fetch are for the same range, so
    every sequence of answers a backend can give during a fetch is given by some such function. */
module SyncFetch {
  import opened Bytes
  import opened Collections

  /** Answer of a bounded range read: rows and a snapshot token, or a fault. */
  datatype Response<+T> = Page(rows: seq<T>, token: Option<nat>) | Fault

  type Backend<!T> = (int, int, Option<nat>) -> Response<T>

  /** Result of a fetch. `log` holds the backend's answers in the order of the calls. */
  datatype Fetch<+T> = Fetch(rows: seq<T>, token: Option<nat>, hadErrors: bool, log: seq<Response<T>>)

  function Or<T>(a: Option<T>, b: Option<T>): Option<T> {
    if a.Some? then a else b
  }

  /** `checked_add` on i64. */
  function CheckedAdd(a: int, b: int): Option<int> {
    if I64_MIN <= a + b <= I64_MAX then Some(a + b) else None
  }

  function FetchRange<T>(backend: Backend<T>, offset: int, limit: int, snapshot: Option<nat>): Fetch<T>
    decreases limit
  {
    match backend(offset, limit, snapshot)
    case Page(rows, token) =>
      if snapshot.None? || token == snapshot
      then Fetch(rows, token, false, [Page(rows, token)])
      else Fetch([], token, true, [Page(rows, token)])
    case Fault =>
      if limit > 1 then Bisect(backend, offset, limit, snapshot)
      else Fetch([], snapshot, true, [Fault])
  }

  function Bisect<T>(backend: Backend<T>, offset: int, limit: int, snapshot: Option<nat>): Fetch<T>
    requires limit > 1
    decreases limit, 0
  {
    var half := limit / 2;
    var left := FetchRange(backend, offset, half, snapshot);
    match CheckedAdd(offset, half)
    case None => Fetch(left.rows, Or(left.token, snapshot), true, [Fault] + left.log)
    case Some(middle) =>
      var right := FetchRange(backend, middle, limit - half, Or(left.token, snapshot));
      var mismatch := left.token.Some? && right.token.Some? && left.token != right.token;
      Fetch(left.rows + right.rows, Or(left.token, right.token),
            left.hadErrors || right.hadErrors || mismatch, [Fault] + left.log + right.log)
  }

  // ----- snapshot tokens -----

  /** Tokens of the pages in a log, in order. */
  function Tokens<T>(log: seq<Response<T>>): seq<Option<nat>> {
    if log == [] then []
    else (if log[0].Page? then [log[0].token] else []) + Tokens(log[1..])
  }

  lemma {:induction false} TokensConcat<T>(a: seq<Response<T>>, b: seq<Response<T>>)
    ensures Tokens(a + b) == Tokens(a) + Tokens(b)
  {
    if a == [] {
      assert a + b == b;
    } else {
      assert (a + b)[0] == a[0] && (a + b)[1..] == a[1..] + b;
      TokensConcat(a[1..], b);
      Regroup(if a[0].Page? then [a[0].token] else [], Tokens(a[1..]), Tokens(b));
    }
  }

  /** A run of tokens that starts under pin `from`, is pinned by the first token it meets, never
      leaves a pin again, and ends under pin `to`. */
  ghost predicate Settles(from: Option<nat>, tokens: seq<Option<nat>>, to: Option<nat>)
    decreases |tokens|
  {
    if tokens == [] then from == to
    else (from.Some? ==> tokens[0] == from) && Settles(Or(from, tokens[0]), tokens[1..], to)
  }

  lemma {:induction false} SettlesConcat(
    a: Option<nat>, x: seq<Option<nat>>, b: Option<nat>, y: seq<Option<nat>>, c: Option<nat>)
    requires Settles(a, x, b) && Settles(b, y, c)
    ensures Settles(a, x + y, c)
    decreases |x|
  {
    if x == [] {
      assert x + y == y;
    } else {
      assert (x + y)[1..] == x[1..] + y;
      SettlesConcat(Or(a, x[0]), x[1..], b, y, c);
    }
  }

  /** What a settled run looks like: under a pin every token is the pin; without one, the run
      carries one token throughout exactly if it carries it first. */
  lemma {:induction false} SettledRun(from: Option<nat>, tokens: seq<Option<nat>>, to: Option<nat>)
    requires Settles(from, tokens, to)
    ensures from.Some? ==> to == from
    ensures to.None? ==> forall i :: 0 <= i < |tokens| ==> tokens[i] == None
    ensures to.Some? && tokens != [] ==>
              ((forall i :: 0 <= i < |tokens| ==> tokens[i] == to) <==> tokens[0].Some?)
    ensures forall i :: 0 <= i < |tokens| ==> tokens[i] == None || tokens[i] == to
    decreases |tokens|
  {
    if tokens == [] {
    } else {
      SettledRun(Or(from, tokens[0]), tokens[1..], to);
      assert tokens == [tokens[0]] + tokens[1..];
      if tokens[0].Some? {
        PinnedRun(tokens[0], tokens[1..], to);
      }
    }
  }

  lemma {:induction false} PinnedRun(pin: Option<nat>, tokens: seq<Option<nat>>, to: Option<nat>)
    requires pin.Some? && Settles(pin, tokens, to)
    ensures to == pin && forall i :: 0 <= i < |tokens| ==> tokens[i] == pin
    decreases |tokens|
  {
    if tokens == [] {
    } else {
      PinnedRun(pin, tokens[1..], to);
    }
  }

  /** A fetch without errors used at least one page, and its pages settle on the reported token
      from the token it was asked for, at every depth of the bisection. */
  lemma {:induction false} CleanFetchSettles<T>(backend: Backend<T>, offset: int, limit: int, snapshot: Option<nat>)
    requires !FetchRange(backend, offset, limit, snapshot).hadErrors
    ensures var f := FetchRange(backend, offset, limit, snapshot);
            Tokens(f.log) != [] && Settles(snapshot, Tokens(f.log), f.token)
    decreases limit
  {
    var f := FetchRange(backend, offset, limit, snapshot);
    match backend(offset, limit, snapshot)
    case Page(rows, token) =>
      assert Tokens(f.log) == [token];
      assert Settles(token, [], token);
    case Fault =>
      var half := limit / 2;
      var left := FetchRange(backend, offset, half, snapshot);
      var right := FetchRange(backend, offset + half, limit - half, Or(left.token, snapshot));
      assert f == Bisect(backend, offset, limit, snapshot);
      CleanFetchSettles(backend, offset, half, snapshot);
      CleanFetchSettles(backend, offset + half, limit - half, Or(left.token, snapshot));
      HalvesSettle(left, right, snapshot);
  }

  /** Two error-free halves, the second asked for the token of the first. */
  lemma HalvesSettle<T>(left: Fetch<T>, right: Fetch<T>, snapshot: Option<nat>)
    requires Tokens(left.log) != [] && Settles(snapshot, Tokens(left.log), left.token)
    requires Tokens(right.log) != [] && Settles(Or(left.token, snapshot), Tokens(right.log), right.token)
    ensures var tokens := Tokens([Fault] + left.log + right.log);
            tokens != [] && Settles(snapshot, tokens, Or(left.token, right.token))
  {
    SettledRun(snapshot, Tokens(left.log), left.token);
    SettledRun(Or(left.token, snapshot), Tokens(right.log), right.token);
    SettlesConcat(snapshot, Tokens(left.log), left.token, Tokens(right.log), right.token);
    BisectTokens(left.log, right.log);
  }

  lemma BisectTokens<T>(a: seq<Response<T>>, b: seq<Response<T>>)
    ensures Tokens([Fault] + a + b) == Tokens(a) + Tokens(b)
  {
    var log := [Fault] + a + b;
    assert log[0] == Fault && log[1..] == a + b;
    TokensConcat(a, b);
  }

  /** A fetch pinned to a token that reports no errors used only pages carrying that token. */
  lemma PinnedFetch<T>(backend: Backend<T>, offset: int, limit: int, s: nat)
    requires !FetchRange(backend, offset, limit, Some(s)).hadErrors
    ensures var f := FetchRange(backend, offset, limit, Some(s));
            f.token == Some(s) && forall r :: r in f.log && r.Page? ==> r.token == Some(s)
  {
    var f := FetchRange(backend, offset, limit, Some(s));
    CleanFetchSettles(backend, offset, limit, Some(s));
    PinnedRun(Some(s), Tokens(f.log), f.token);
    forall r | r in f.log && r.Page?
      ensures r.token == Some(s)
    {
      TokenIn(f.log, r);
    }
  }

  lemma {:induction false} TokenIn<T>(log: seq<Response<T>>, r: Response<T>)
    requires r in log && r.Page?
    ensures r.token in Tokens(log)
  {
    if log[0] != r {
      TokenIn(log[1..], r);
    }
  }

  // ----- exactness against a backend with unreadable rows -----

  function Slice<T>(list: seq<T>, offset: nat, limit: nat): seq<T> {
    if offset >= |list| then [] else if offset + limit >= |list| then list[offset..] else list[offset..offset + limit]
  }

  ghost predicate HasBad(bad: set<int>, lo: int, hi: int) {
    exists i :: i in bad && lo <= i < hi
  }

  /** The backend serves `list` under one token and fails exactly on ranges with an unreadable row. */
  ghost predicate FailsOn<T(!new)>(backend: Backend<T>, list: seq<T>, bad: set<int>, token: Option<nat>) {
    forall o: nat, l: nat, s :: Answers(backend, list, bad, token, o, l, s)
  }

  ghost predicate Answers<T>(
    backend: Backend<T>, list: seq<T>, bad: set<int>, token: Option<nat>, o: nat, l: nat, s: Option<nat>)
  {
    backend(o, l, s) == if HasBad(bad, o, o + l) then Fault else Page(Slice(list, o, l), token)
  }

  /** The readable rows with indices in [lo, hi), in order. */
  function Readable<T>(list: seq<T>, bad: set<int>, lo: nat, hi: nat): seq<T>
    decreases hi - lo
  {
    if lo >= hi || lo >= |list| then []
    else (if lo in bad then [] else [list[lo]]) + Readable(list, bad, lo + 1, hi)
  }

  function BadIn(bad: set<int>, lo: int, hi: int): set<int> {
    set i | i in bad && lo <= i < hi
  }

  function CeilLog2(n: nat): nat {
    if n <= 1 then 0 else 1 + CeilLog2((n + 1) / 2)
  }

  lemma {:induction false} CeilLog2Monotone(m: nat, n: nat)
    requires m <= n
    ensures CeilLog2(m) <= CeilLog2(n)
  {
    if m > 1 {
      CeilLog2Monotone((m + 1) / 2, (n + 1) / 2);
    }
  }

  lemma {:induction false} ReadableSplit<T>(list: seq<T>, bad: set<int>, lo: nat, mid: nat, hi: nat)
    requires lo <= mid <= hi
    ensures Readable(list, bad, lo, hi) == Readable(list, bad, lo, mid) + Readable(list, bad, mid, hi)
    decreases mid - lo
  {
    if lo < mid {
      ReadableSplit(list, bad, lo + 1, mid, hi);
    }
  }

  lemma ReadableAll<T>(list: seq<T>, bad: set<int>, lo: nat, limit: nat)
    requires !HasBad(bad, lo, lo + limit)
    ensures Readable(list, bad, lo, lo + limit) == Slice(list, lo, limit)
  {
    ReadableUpTo(list, bad, lo, lo + limit);
  }

  lemma {:induction false} ReadableUpTo<T>(list: seq<T>, bad: set<int>, lo: nat, hi: nat)
    requires !HasBad(bad, lo, hi) && lo <= hi
    ensures Readable(list, bad, lo, hi) == Slice(list, lo, hi - lo)
    decreases hi - lo
  {
    if lo < hi && lo < |list| {
      ReadableUpTo(list, bad, lo + 1, hi);
      ReadableHead(list, bad, lo, hi);
      SliceHead(list, lo, hi - lo, hi - (lo + 1));
    } else {
      SliceEmpty(list, lo, hi - lo);
    }
  }

  lemma ReadableHead<T>(list: seq<T>, bad: set<int>, lo: nat, hi: nat)
    requires !HasBad(bad, lo, hi) && lo < hi && lo < |list|
    ensures Readable(list, bad, lo, hi) == [list[lo]] + Readable(list, bad, lo + 1, hi)
  {
    assert lo !in bad;
  }

  lemma SliceHead<T>(list: seq<T>, lo: nat, limit: nat, less: nat)
    requires lo < |list| && limit == less + 1
    ensures Slice(list, lo, limit) == [list[lo]] + Slice(list, lo + 1, less)
  {
  }

  lemma SliceEmpty<T>(list: seq<T>, lo: nat, limit: nat)
    requires limit == 0 || lo >= |list|
    ensures Slice(list, lo, limit) == []
  {
  }

  lemma BadSplit(bad: set<int>, lo: int, mid: int, hi: int)
    requires lo <= mid <= hi
    ensures |BadIn(bad, lo, hi)| == |BadIn(bad, lo, mid)| + |BadIn(bad, mid, hi)|
    ensures HasBad(bad, lo, hi) <==> |BadIn(bad, lo, hi)| > 0
    ensures HasBad(bad, lo, hi) <==> HasBad(bad, lo, mid) || HasBad(bad, mid, hi)
  {
    assert BadIn(bad, lo, hi) == BadIn(bad, lo, mid) + BadIn(bad, mid, hi);
    assert BadIn(bad, lo, mid) !! BadIn(bad, mid, hi);
    if HasBad(bad, lo, hi) {
      var i :| i in bad && lo <= i < hi;
      assert i in BadIn(bad, lo, hi);
    } else {
      assert BadIn(bad, lo, hi) == {};
    }
  }

  /** Bisection is exact: it returns the readable rows of the range in order and reports an error
      exactly if some row of the range is unreadable. */
  lemma {:induction false} BisectionExact<T(!new)>(
    backend: Backend<T>, list: seq<T>, bad: set<int>, token: Option<nat>, offset: nat, limit: nat,
    snapshot: Option<nat>)
    requires FailsOn(backend, list, bad, token)
    requires 1 <= limit && offset + limit <= I64_MAX
    requires snapshot == None || snapshot == token
    ensures var f := FetchRange(backend, offset, limit, snapshot);
            && f.rows == Readable(list, bad, offset, offset + limit)
            && (f.hadErrors <==> HasBad(bad, offset, offset + limit))
            && (f.token == None || f.token == token)
    decreases limit
  {
    assert Answers(backend, list, bad, token, offset, limit, snapshot);
    if !HasBad(bad, offset, offset + limit) {
      ReadableAll(list, bad, offset, limit);
    } else if limit == 1 {
      assert offset in bad;
    } else {
      var half := limit / 2;
      var mid, rest := offset + half, limit - half;
      var left := FetchRange(backend, offset, half, snapshot);
      BisectionExact(backend, list, bad, token, offset, half, snapshot);
      BisectionExact(backend, list, bad, token, mid, rest, Or(left.token, snapshot));
      FaultSplits(backend, offset, limit, snapshot);
      ReadableSplit(list, bad, offset, mid, mid + rest);
      BadSplit(bad, offset, mid, mid + rest);
    }
  }

  /** With k unreadable rows in the range, bisection makes at most 1 + 2k*ceil(log2(limit)) calls. */
  lemma {:induction false} BisectionCalls<T(!new)>(
    backend: Backend<T>, list: seq<T>, bad: set<int>, token: Option<nat>, offset: nat, limit: nat,
    snapshot: Option<nat>)
    requires FailsOn(backend, list, bad, token)
    requires 1 <= limit && offset + limit <= I64_MAX
    requires snapshot == None || snapshot == token
    ensures |FetchRange(backend, offset, limit, snapshot).log|
         <= CallLimit(|BadIn(bad, offset, offset + limit)|, limit)
    decreases limit
  {
    assert Answers(backend, list, bad, token, offset, limit, snapshot);
    if !HasBad(bad, offset, offset + limit) || limit == 1 {
      assert |FetchRange(backend, offset, limit, snapshot).log| == 1;
    } else {
      var half := limit / 2;
      var mid, rest := offset + half, limit - half;
      var left := FetchRange(backend, offset, half, snapshot);
      BisectionExact(backend, list, bad, token, offset, half, snapshot);
      BisectionCalls(backend, list, bad, token, offset, half, snapshot);
      BisectionCalls(backend, list, bad, token, mid, rest, Or(left.token, snapshot));
      HalvesCalls(backend, bad, offset, limit, snapshot);
    }
  }

  lemma HalvesCalls<T>(backend: Backend<T>, bad: set<int>, offset: nat, limit: nat, snapshot: Option<nat>)
    requires limit > 1 && offset + limit <= I64_MAX && backend(offset, limit, snapshot).Fault?
    requires HasBad(bad, offset, offset + limit)
    requires var half := limit / 2;
             var left := FetchRange(backend, offset, half, snapshot);
             var right := FetchRange(backend, offset + half, limit - half, Or(left.token, snapshot));
             && |left.log| <= CallLimit(|BadIn(bad, offset, offset + half)|, half)
             && |right.log| <= CallLimit(|BadIn(bad, offset + half, offset + limit)|, limit - half)
    ensures |FetchRange(backend, offset, limit, snapshot).log|
         <= CallLimit(|BadIn(bad, offset, offset + limit)|, limit)
  {
    var mid := offset + limit / 2;
    FaultSplits(backend, offset, limit, snapshot);
    BadSplit(bad, offset, mid, offset + limit);
    CallBound(limit, |BadIn(bad, offset, mid)|, |BadIn(bad, mid, offset + limit)|);
  }

  /** A failing range that can be split is fetched as its two halves. */
  lemma FaultSplits<T>(backend: Backend<T>, offset: nat, limit: nat, snapshot: Option<nat>)
    requires limit > 1 && offset + limit <= I64_MAX && backend(offset, limit, snapshot).Fault?
    ensures var f, half := FetchRange(backend, offset, limit, snapshot), limit / 2;
            var left := FetchRange(backend, offset, half, snapshot);
            var right := FetchRange(backend, offset + half, limit - half, Or(left.token, snapshot));
            && f.rows == left.rows + right.rows && |f.log| == 1 + |left.log| + |right.log|
            && f.token == Or(left.token, right.token)
            && (f.hadErrors <==> left.hadErrors || right.hadErrors
                                 || (left.token.Some? && right.token.Some? && left.token != right.token))
  {
    assert FetchRange(backend, offset, limit, snapshot) == Bisect(backend, offset, limit, snapshot);
  }

  /** The most calls for k unreadable rows in a range of that size. */
  function CallLimit(k: nat, limit: nat): (n: nat)
    ensures n >= 1
  {
    1 + 2 * k * CeilLog2(limit)
  }

  lemma CallBound(limit: nat, k1: nat, k2: nat)
    requires limit > 1 && k1 + k2 > 0
    ensures 1 + CallLimit(k1, limit / 2) + CallLimit(k2, limit - limit / 2) <= CallLimit(k1 + k2, limit)
  {
    var c := CeilLog2(limit) - 1;
    assert limit - limit / 2 == (limit + 1) / 2;
    CeilLog2Monotone(limit / 2, (limit + 1) / 2);
    MulLe(k1, CeilLog2(limit / 2), c);
    MulLe(k2, CeilLog2(limit - limit / 2), c);
    assert 2 * (k1 + k2) * (c + 1) == 2 * (k1 * c) + 2 * (k2 * c) + 2 * (k1 + k2);
  }

  lemma MulLe(k: nat, a: nat, b: nat)
    requires a <= b
    ensures 2 * k * a <= 2 * (k * b)
  {
  }

  // ----- a row that cannot be read -----

  /** Row b is there and cannot be read: every range with it fails, and a page in front of it is full. */
  ghost predicate Unreadable<T(!new)>(backend: Backend<T>, b: nat) {
    forall o: nat, l: nat, s :: UnreadableIn(backend, b, o, l, s)
  }

  ghost predicate UnreadableIn<T>(backend: Backend<T>, b: nat, o: nat, l: nat, s: Option<nat>) {
    var r := backend(o, l, s);
    && (o <= b < o + l ==> r.Fault?)
    && (r.Page? ==> |r.rows| <= l && (o + l <= b ==> |r.rows| == l))
  }

  /** A range with the unreadable row comes back short and with errors; one in front of it that comes back
      without errors is full. */
  lemma {:induction false} UnreadableFetch<T(!new)>(
    backend: Backend<T>, b: nat, offset: nat, limit: nat, snapshot: Option<nat>)
    requires Unreadable(backend, b) && limit >= 1
    ensures var f := FetchRange(backend, offset, limit, snapshot);
            && |f.rows| <= limit
            && (offset <= b < offset + limit ==> f.hadErrors && |f.rows| < limit)
            && (offset + limit <= b && !f.hadErrors ==> |f.rows| == limit)
    decreases limit
  {
    assert UnreadableIn(backend, b, offset, limit, snapshot);
    if backend(offset, limit, snapshot).Page? || limit == 1 {
    } else {
      var half := limit / 2;
      var left := FetchRange(backend, offset, half, snapshot);
      UnreadableFetch(backend, b, offset, half, snapshot);
      UnreadableFetch(backend, b, offset + half, limit - half, Or(left.token, snapshot));
      assert FetchRange(backend, offset, limit, snapshot) == Bisect(backend, offset, limit, snapshot);
    }
  }

  /** The backend of the bisection results has such a row if one of its unreadable rows is on the list. */
  lemma FailsOnIsUnreadable<T(!new)>(backend: Backend<T>, list: seq<T>, bad: set<int>, token: Option<nat>, b: nat)
    requires FailsOn(backend, list, bad, token) && b in bad && b < |list|
    ensures Unreadable(backend, b)
  {
    forall o: nat, l: nat, s
      ensures UnreadableIn(backend, b, o, l, s)
    {
      assert Answers(backend, list, bad, token, o, l, s);
    }
  }
}
