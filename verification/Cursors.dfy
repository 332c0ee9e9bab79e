/** Model of the DB-API Cursor in jpype/dbapi2.py over forward-only result sets: what execute and close
    own, and what the fetch methods deliver. */
module Cursors {
  import opened Wrappers

  /** NoResultSet is what a generator raises that is resumed after its result set was closed. */
  datatype Error = CursorClosed | NotExecuted | ConversionFailed | StatementFailed | NoResultSet

  class Statement {
    var open: bool

    constructor ()
      ensures open
    {
      open := true;
    }

    method Close()
      modifies this
      ensures !open
    {
      open := false;
    }
  }

  /** A JDBC result set: next() moves to the following row, and no method moves back. */
  class ResultSet<Raw> {
    const rows: seq<Raw>
    var pos: nat

    constructor (rows: seq<Raw>)
      ensures this.rows == rows && pos == 0
    {
      this.rows, pos := rows, 0;
    }

    method Next() returns (more: bool)
      requires pos <= |rows|
      modifies this
      ensures more == (old(pos) < |rows|) && pos == old(pos) + if more then 1 else 0
    {
      if pos == |rows| { return false; }
      pos := pos + 1;
      return true;
    }
  }

  /** What the database does with an operation. */
  datatype Execution<+Raw> =
    | PrepareFails
    | ExecuteFails           // binding the parameters or executing raises
    | Update
    | Query(rows: seq<Raw>)

  // ----- rows and their conversion

  ghost predicate AllConvert<Raw, Row>(convert: Raw -> Option<Row>, raws: seq<Raw>) {
    forall i :: 0 <= i < |raws| ==> convert(raws[i]).Some?
  }

  function Rows<Raw, Row>(convert: Raw -> Option<Row>, raws: seq<Raw>): seq<Row> {
    if raws == [] then []
    else
      var last := convert(raws[|raws| - 1]);
      Rows(convert, raws[..|raws| - 1]) + if last.Some? then [last.value] else []
  }

  /** With a conversion that accepts every row, one row is delivered for each row read, in order. */
  lemma {:induction false} RowsAre<Raw, Row>(convert: Raw -> Option<Row>, raws: seq<Raw>)
    ensures |Rows(convert, raws)| == |raws| <==> AllConvert(convert, raws)
    ensures |Rows(convert, raws)| <= |raws|
    ensures AllConvert(convert, raws) ==>
              forall i :: 0 <= i < |raws| ==> Rows(convert, raws)[i] == convert(raws[i]).value
  {
    if raws != [] {
      var n := |raws| - 1;
      RowsAre(convert, raws[..n]);
      assert AllConvert(convert, raws) <==> AllConvert(convert, raws[..n]) && convert(raws[n]).Some?;
    }
  }

  lemma RowsOfNone<Raw, Row>(convert: Raw -> Option<Row>, raws: seq<Raw>)
    requires raws == []
    ensures Rows(convert, raws) == [] && AllConvert(convert, raws)
  {
  }

  lemma {:induction false} RowsSplit<Raw, Row>(convert: Raw -> Option<Row>, a: seq<Raw>, b: seq<Raw>)
    ensures Rows(convert, a + b) == Rows(convert, a) + Rows(convert, b)
    decreases |b|
  {
    if b == [] {
      assert a + b == a;
    } else {
      assert (a + b)[..|a + b| - 1] == a + b[..|b| - 1];
      RowsSplit(convert, a, b[..|b| - 1]);
    }
  }

  // ----- one fetch

  /** How far a result set was read, and the rows returned from it so far. */
  datatype Progress<Row> = Progress(pos: nat, delivered: seq<Row>)

  datatype Delivery<Row> = Delivery(progress: Progress<Row>, result: Result<seq<Row>, Error>)

  /** The rows that a fetch of `size` rows, or of all rows, asks for. */
  function Wanted<Raw>(all: seq<Raw>, pos: nat, size: Option<nat>): seq<Raw>
    requires pos <= |all|
  {
    if size.Some? && size.value < |all| - pos then all[pos..pos + size.value] else all[pos..]
  }

  /** How many rows convert before the first that does not. */
  function Good<Raw, Row>(convert: Raw -> Option<Row>, raws: seq<Raw>): (k: nat)
    ensures k <= |raws| && AllConvert(convert, raws[..k]) && (k < |raws| ==> convert(raws[k]).None?)
    ensures k == |raws| <==> AllConvert(convert, raws)
  {
    if raws == [] || convert(raws[0]).None? then 0
    else
      var k := Good(convert, raws[1..]);
      assert forall i :: 0 <= i < |raws| ==> raws[i] == if i == 0 then raws[0] else raws[1..][i - 1];
      1 + k
  }

  /** A fetch gives the wanted rows, or stops behind the first that does not convert and drops those
      before it. */
  function Fetched<Raw, Row>(convert: Raw -> Option<Row>, all: seq<Raw>, p: Progress<Row>, size: Option<nat>)
    : (d: Delivery<Row>)
    requires p.pos <= |all|
    ensures p.pos <= d.progress.pos <= |all|
  {
    var wanted := Wanted(all, p.pos, size);
    var k := Good(convert, wanted);
    if k < |wanted| then Delivery(Progress(p.pos + k + 1, p.delivered), Err(ConversionFailed))
    else
      var rows := Rows(convert, wanted);
      Delivery(Progress(p.pos + |wanted|, p.delivered + rows), Ok(rows))
  }

  // ----- any interleaving of fetches and iterations over one result set

  /** A generator made by iterating over the cursor. */
  datatype Phase = Fresh | Suspended | Finished

  /** Only a fresh generator checks that the cursor is open, executed and used from its own thread. */
  predicate GoesOn(phase: Phase, checked: bool) { phase.Suspended? || (phase.Fresh? && checked) }

  /** The generator after it was resumed; `result` is that of its fetch, if it made one. */
  function PhaseAfter<Row>(phase: Phase, checked: bool, result: Result<seq<Row>, Error>): Phase {
    if GoesOn(phase, checked) && result.Ok? && result.value != [] then Suspended else Finished
  }

  datatype Client<Row> = Client(progress: Progress<Row>, generators: seq<Phase>)

  datatype Request =
    | One(usable: bool)
    | Several(usable: bool, size: Option<nat>)
    | Iter
    | Next(generator: nat, usable: bool)

  /** What a request does to an open cursor with a result set. */
  function Serve<Raw, Row>(convert: Raw -> Option<Row>, all: seq<Raw>, s: Client<Row>, q: Request): (t: Client<Row>)
    requires s.progress.pos <= |all|
    ensures t.progress.pos <= |all|
  {
    match q
    case One(usable) => if usable then s.(progress := Fetched(convert, all, s.progress, Some(1)).progress) else s
    case Several(usable, size) =>
      if usable then s.(progress := Fetched(convert, all, s.progress, size).progress) else s
    case Iter => s.(generators := s.generators + [Fresh])
    case Next(g, usable) =>
      if g >= |s.generators| then s
      else
        var d := Fetched(convert, all, s.progress, Some(1));
        var after := s.generators[g := PhaseAfter(s.generators[g], usable, d.result)];
        if GoesOn(s.generators[g], usable) then Client(d.progress, after) else s.(generators := after)
  }

  function Served<Raw, Row>(convert: Raw -> Option<Row>, all: seq<Raw>, qs: seq<Request>): (s: Client<Row>)
    ensures s.progress.pos <= |all|
  {
    if qs == [] then Client(Progress(0, []), [])
    else Serve(convert, all, Served(convert, all, qs[..|qs| - 1]), qs[|qs| - 1])
  }

  /** The rows returned are conversions of different rows before the position, in their order. */
  ghost predicate InOrder<Raw, Row>(convert: Raw -> Option<Row>, all: seq<Raw>, p: Progress<Row>) {
    exists from: seq<nat> :: Picks(convert, all, p, from)
  }

  ghost predicate Picks<Raw, Row>(convert: Raw -> Option<Row>, all: seq<Raw>, p: Progress<Row>, from: seq<nat>) {
    && |from| == |p.delivered| && p.pos <= |all|
    && (forall i :: 0 <= i < |from| ==> from[i] < p.pos && convert(all[from[i]]) == Some(p.delivered[i]))
    && forall i, j :: 0 <= i < j < |from| ==> from[i] < from[j]
  }

  /** What every fetch keeps: nothing is repeated or out of order, and as long as all rows read so far
      convert, but no longer, nothing is lost. */
  ghost predicate Kept<Raw, Row>(convert: Raw -> Option<Row>, all: seq<Raw>, p: Progress<Row>) {
    && p.pos <= |all| && InOrder(convert, all, p) && |p.delivered| <= p.pos
    && (|p.delivered| == p.pos <==> AllConvert(convert, all[..p.pos]))
    && (AllConvert(convert, all[..p.pos]) ==> p.delivered == Rows(convert, all[..p.pos]))
  }

  lemma FetchedInOrder<Raw, Row>(convert: Raw -> Option<Row>, all: seq<Raw>, p: Progress<Row>, size: Option<nat>)
    requires p.pos <= |all| && InOrder(convert, all, p)
    ensures InOrder(convert, all, Fetched(convert, all, p, size).progress)
  {
    var from :| Picks(convert, all, p, from);
    var wanted := Wanted(all, p.pos, size);
    var d := Fetched(convert, all, p, size);
    if d.result.Ok? {
      RowsAre(convert, wanted);
      var more: seq<nat> := seq(|wanted|, i => p.pos + i);
      assert Picks(convert, all, d.progress, from + more);
    } else {
      assert Picks(convert, all, d.progress, from);
    }
  }

  lemma FetchedKeeps<Raw, Row>(convert: Raw -> Option<Row>, all: seq<Raw>, p: Progress<Row>, size: Option<nat>)
    requires Kept(convert, all, p)
    ensures Kept(convert, all, Fetched(convert, all, p, size).progress)
  {
    FetchedInOrder(convert, all, p, size);
    var d := Fetched(convert, all, p, size);
    if AllConvert(convert, Wanted(all, p.pos, size)) {
      GoodFetch(convert, all, p, size);
    } else {
      BadFetch(convert, all, p, size);
    }
    hide Fetched, InOrder, Rows;
  }

  lemma GoodFetch<Raw, Row>(convert: Raw -> Option<Row>, all: seq<Raw>, p: Progress<Row>, size: Option<nat>)
    requires p.pos <= |all| && AllConvert(convert, Wanted(all, p.pos, size))
    ensures var d, wanted := Fetched(convert, all, p, size), Wanted(all, p.pos, size);
            && d == Delivery(Progress(p.pos + |wanted|, p.delivered + Rows(convert, wanted)), Ok(Rows(convert, wanted)))
            && |Rows(convert, wanted)| == |wanted|
            && (AllConvert(convert, all[..d.progress.pos]) <==> AllConvert(convert, all[..p.pos]))
            && Rows(convert, all[..d.progress.pos]) == Rows(convert, all[..p.pos]) + Rows(convert, wanted)
  {
    hide Rows, AllConvert, Wanted;
    var wanted := Wanted(all, p.pos, size);
    WantedIs(all, p.pos, size);
    RowsAre(convert, wanted);
    RowsSplit(convert, all[..p.pos], wanted);
    AllConvertSplit(convert, all[..p.pos], wanted);
  }

  lemma WantedIs<Raw>(all: seq<Raw>, pos: nat, size: Option<nat>)
    requires pos <= |all|
    ensures var wanted := Wanted(all, pos, size);
            pos + |wanted| <= |all| && all[..pos + |wanted|] == all[..pos] + wanted
  {
  }

  lemma BadFetch<Raw, Row>(convert: Raw -> Option<Row>, all: seq<Raw>, p: Progress<Row>, size: Option<nat>)
    requires p.pos <= |all| && !AllConvert(convert, Wanted(all, p.pos, size))
    ensures var d := Fetched(convert, all, p, size);
            && d.result == Err(ConversionFailed) && d.progress.delivered == p.delivered
            && d.progress.pos > p.pos && !AllConvert(convert, all[..d.progress.pos])
  {
    var wanted := Wanted(all, p.pos, size);
    assert all[..p.pos + Good(convert, wanted) + 1][p.pos + Good(convert, wanted)]
      == wanted[Good(convert, wanted)];
  }

  lemma AllConvertSplit<Raw, Row>(convert: Raw -> Option<Row>, a: seq<Raw>, b: seq<Raw>)
    ensures AllConvert(convert, a + b) <==> AllConvert(convert, a) && AllConvert(convert, b)
  {
    if AllConvert(convert, a + b) {
      forall i | 0 <= i < |a| ensures convert(a[i]).Some? { assert (a + b)[i] == a[i]; }
      forall i | 0 <= i < |b| ensures convert(b[i]).Some? { assert (a + b)[|a| + i] == b[i]; }
    }
  }

  /** How many rows a request asks the result set for, if it gets that far. */
  function Size(q: Request): Option<nat> { if q.Several? then q.size else Some(1) }

  lemma ServesByFetching<Raw, Row>(convert: Raw -> Option<Row>, all: seq<Raw>, s: Client<Row>, q: Request)
    requires s.progress.pos <= |all|
    ensures var t := Serve(convert, all, s, q);
            t.progress == s.progress || t.progress == Fetched(convert, all, s.progress, Size(q)).progress
  {
    hide Fetched;
  }

  /** Over any interleaving of fetchone, fetchmany, fetchall and any number of iterations: the rows
      returned are in order and none is returned twice; they are exactly the rows read, converted, if
      and only if every row read so far converts. */
  lemma {:induction false} RowsReturned<Raw, Row>(convert: Raw -> Option<Row>, all: seq<Raw>, qs: seq<Request>)
    ensures Kept(convert, all, Served(convert, all, qs).progress)
    decreases |qs|
  {
    if qs == [] {
      assert Picks(convert, all, Progress(0, []), []);
      RowsOfNone(convert, all[..0]);
    } else {
      hide Kept, Serve, Fetched;
      var s, q := Served(convert, all, qs[..|qs| - 1]), qs[|qs| - 1];
      RowsReturned(convert, all, qs[..|qs| - 1]);
      ServesByFetching(convert, all, s, q);
      FetchedKeeps(convert, all, s.progress, Size(q));
    }
  }

  /** With conversions that accept every row no fetch fails, what was returned is always a prefix of the
      converted result set, and a final fetchall completes it. */
  lemma TotalConversionsLoseNothing<Raw, Row>(convert: Raw -> Option<Row>, all: seq<Raw>, qs: seq<Request>)
    requires AllConvert(convert, all)
    ensures var p := Served(convert, all, qs).progress;
            && |p.delivered| <= |Rows(convert, all)| && p.delivered == Rows(convert, all)[..|p.delivered|]
            && forall size :: Fetched(convert, all, p, size).result.Ok?
    ensures Served(convert, all, qs + [Several(true, None)]).progress.delivered == Rows(convert, all)
  {
    hide Rows, Fetched;
    var p := Served(convert, all, qs).progress;
    RowsReturned(convert, all, qs);
    assert all == all[..p.pos] + all[p.pos..];
    RowsSplit(convert, all[..p.pos], all[p.pos..]);
    forall size ensures Fetched(convert, all, p, size).result.Ok? { GoodFetch(convert, all, p, size); }
    GoodFetch(convert, all, p, None);
    ServedThenAll(convert, all, qs);
  }

  lemma ServedThenAll<Raw, Row>(convert: Raw -> Option<Row>, all: seq<Raw>, qs: seq<Request>)
    ensures Served(convert, all, qs + [Several(true, None)]).progress
         == Fetched(convert, all, Served(convert, all, qs).progress, None).progress
  {
    hide Fetched;
    assert (qs + [Several(true, None)])[..|qs|] == qs;
  }

  /** How far a fetch of `size` rows gets, if all convert. */
  function Reach(pos: nat, total: nat, size: Option<nat>): nat {
    if size.Some? && pos + size.value < total then pos + size.value else total
  }

  /** The request is not refused: the connection is open and the thread the cursor's own, or a generator
      is resumed that has already yielded a row. */
  predicate Granted<Row>(s: Client<Row>, q: Request) {
    match q
    case One(usable) => usable
    case Several(usable, _) => usable
    case Iter => false
    case Next(g, usable) => g < |s.generators| && (s.generators[g] == Suspended || (s.generators[g] == Fresh && usable))
  }

  /** With conversions that accept every row, every request that is not refused gets what it asks for, as
      far as there are rows, and a refused one gets nothing. A resumed generator goes on exactly as long as
      it gets a row. */
  lemma RequestsAreMet<Raw, Row>(convert: Raw -> Option<Row>, all: seq<Raw>, qs: seq<Request>, q: Request)
    requires AllConvert(convert, all)
    ensures var s, t := Served(convert, all, qs), Served(convert, all, qs + [q]);
            var pos, end := s.progress.pos, Reach(s.progress.pos, |all|, Size(q));
            && t.progress == (if Granted(s, q)
                              then Progress(end, s.progress.delivered + Rows(convert, all[pos..end])) else s.progress)
            && (q.Iter? ==> t.generators == s.generators + [Fresh])
            && (q.Next? && q.generator < |s.generators| ==>
                  t.generators == s.generators[q.generator := if Granted(s, q) && pos < |all| then Suspended
                                                              else Finished])
            && (q.One? || q.Several? ==> t.generators == s.generators)
  {
    assert (qs + [q])[..|qs|] == qs;
    var s := Served(convert, all, qs);
    RowsReturned(convert, all, qs);
    hide Rows;
    WantedToReach(all, s.progress.pos, Size(q));
    GoodFetch(convert, all, s.progress, Size(q));
    hide Fetched, AllConvert, Wanted;
  }

  lemma WantedToReach<Raw>(all: seq<Raw>, pos: nat, size: Option<nat>)
    requires pos <= |all|
    ensures pos <= Reach(pos, |all|, size) && Wanted(all, pos, size) == all[pos..Reach(pos, |all|, size)]
  {
  }

  /** A loop over the cursor: its generator is made, first resumed while the cursor is usable, and resumed
      n times in all. */
  ghost predicate IsLoop(qs: seq<Request>, n: nat) {
    && |qs| == n + 1 && qs[0] == Iter && (n > 0 ==> qs[1] == Next(0, true))
    && forall i :: 1 <= i <= n ==> qs[i].Next? && qs[i].generator == 0
  }

  /** It delivers one row each time, in order, until there are no more, and then ends. */
  lemma {:induction false} LoopDelivers<Raw, Row>(convert: Raw -> Option<Row>, all: seq<Raw>, qs: seq<Request>, n: nat)
    requires AllConvert(convert, all) && IsLoop(qs, n)
    ensures var s, k := Served(convert, all, qs), if n < |all| then n else |all|;
            && s.progress == Progress(k, Rows(convert, all[..k]))
            && s.generators == [if n == 0 then Fresh else if n <= |all| then Suspended else Finished]
  {
    var front := qs[..n];
    assert qs == front + [qs[n]];
    hide Serve, Fetched, Rows;
    if n == 0 {
      LoopStarts(convert, all, qs);
    } else {
      LoopDelivers(convert, all, front, n - 1);
      RequestsAreMet(convert, all, front, qs[n]);
      var k := if n - 1 < |all| then n - 1 else |all|;
      OneMoreRow(convert, all, k);
      assert n == 1 ==> qs[1] == Next(0, true);
      hide Served, AllConvert;
    }
  }

  lemma LoopStarts<Raw, Row>(convert: Raw -> Option<Row>, all: seq<Raw>, qs: seq<Request>)
    requires qs == [Iter]
    ensures Served(convert, all, qs) == Client(Progress(0, Rows(convert, all[..0])), [Fresh])
  {
    assert qs[..0] == [];
    RowsOfNone(convert, all[..0]);
    assert Served(convert, all, []) == Client(Progress(0, []), []);
  }

  lemma OneMoreRow<Raw, Row>(convert: Raw -> Option<Row>, all: seq<Raw>, k: nat)
    requires k <= |all|
    ensures var end := Reach(k, |all|, Some(1));
            && end == (if k < |all| then k + 1 else |all|)
            && Rows(convert, all[..end]) == Rows(convert, all[..k]) + Rows(convert, all[k..end])
  {
    var end := Reach(k, |all|, Some(1));
    RowsSplit(convert, all[..k], all[k..end]);
    assert all[..k] + all[k..end] == all[..end];
  }

  /** So a loop that runs to the end returns the whole converted result set. */
  lemma LoopReturnsAll<Raw, Row>(convert: Raw -> Option<Row>, all: seq<Raw>, qs: seq<Request>, n: nat)
    requires AllConvert(convert, all) && IsLoop(qs, n) && n >= |all|
    ensures Served(convert, all, qs).progress.delivered == Rows(convert, all)
  {
    LoopDelivers(convert, all, qs, n);
    assert all[..|all|] == all;
  }

  /** Reading a row at a time loses only the rows that do not convert. */
  lemma {:induction false} SingleRowsLoseOnlyBad<Raw, Row>(convert: Raw -> Option<Row>, all: seq<Raw>, qs: seq<Request>)
    requires forall i :: 0 <= i < |qs| ==> !qs[i].Several?
    ensures var p := Served(convert, all, qs).progress; p.delivered == Rows(convert, all[..p.pos])
    decreases |qs|
  {
    if qs != [] {
      hide Serve, Fetched, Rows;
      var s := Served(convert, all, qs[..|qs| - 1]);
      SingleRowsLoseOnlyBad(convert, all, qs[..|qs| - 1]);
      ServesByFetching(convert, all, s, qs[|qs| - 1]);
      SingleFetch(convert, all, s.progress);
    }
  }

  lemma SingleFetch<Raw, Row>(convert: Raw -> Option<Row>, all: seq<Raw>, p: Progress<Row>)
    requires p.pos <= |all| && p.delivered == Rows(convert, all[..p.pos])
    ensures var next := Fetched(convert, all, p, Some(1)).progress;
            next.delivered == Rows(convert, all[..next.pos])
  {
    if p.pos < |all| {
      var wanted := Wanted(all, p.pos, Some(1));
      RowsSplit(convert, all[..p.pos], wanted);
      assert all[..p.pos] + wanted == all[..p.pos + 1];
      assert wanted[..0] == [];
    }
  }

  /** Two good rows asked for together with a bad one are lost: only the row behind it is returned. */
  lemma GoodRowsLost()
    ensures var convert := (x: int) => if x < 0 then None else Some(x);
            var p := Served(convert, [1, 2, -1, 3], [Several(true, Some(3)), One(true)]).progress;
            p.pos == 4 && p.delivered == [3]
  {
    var convert := (x: int) => if x < 0 then None else Some(x);
    var all, qs := [1, 2, -1, 3], [Several(true, Some(3)), One(true)];
    assert qs[..1] == [Several(true, Some(3))] && qs[..1][..0] == [];
    assert Wanted(all, 0, Some(3)) == [1, 2, -1] && Wanted(all, 3, Some(1)) == [3];
    assert [1, 2, -1][1..] == [2, -1] && [2, -1][1..] == [-1];
    assert Good(convert, [1, 2, -1]) == 2;
    assert Served(convert, all, qs[..1]).progress == Progress(3, []);
    assert Rows(convert, [3]) == [3];
  }

  // ----- the code

  /** The cursor. `convert` stands for the getters and converters of its columns. */
  class Cursor<!Raw, !Row> {
    const convert: Raw -> Option<Row>
    var resultSet: ResultSet?<Raw>
    var statement: Statement?
    var closed: bool
    /** Every statement ever prepared, and the rows returned since the latest execute. */
    ghost var prepared: set<Statement>
    ghost var delivered: seq<Row>

    ghost predicate Valid()
      reads this, prepared, if resultSet == null then {} else {resultSet}
    {
      && (statement != null ==> statement in prepared && statement.open)
      && (forall s :: s in prepared && s.open ==> s == statement)
      && (closed ==> statement == null && resultSet == null)
      && (resultSet != null ==> statement != null && resultSet.pos <= |resultSet.rows|)
    }

    /** Nothing read so far was lost or repeated: what was delivered is exactly the conversion of the
        rows before the result set's position. */
    ghost predicate Faithful()
      requires resultSet != null && resultSet.pos <= |resultSet.rows|
      reads this, resultSet
    {
      && AllConvert(convert, resultSet.rows[..resultSet.pos])
      && delivered == Rows(convert, resultSet.rows[..resultSet.pos])
    }

    ghost function Reached(): Progress<Row>
      requires resultSet != null
      reads this, resultSet
    {
      Progress(resultSet.pos, delivered)
    }

    /** The conversion of the row behind pos, None at the end. */
    function Following(pos: nat): Result<Option<Row>, Error>
      requires resultSet != null
      reads this
    {
      if pos >= |resultSet.rows| then Ok(None)
      else if convert(resultSet.rows[pos]).None? then Err(ConversionFailed) else Ok(convert(resultSet.rows[pos]))
    }

    /** The error of _check_executed, if any. */
    function Refusal(usable: bool): Option<Error>
      reads this
    {
      if closed || !usable then Some(CursorClosed) else if resultSet == null then Some(NotExecuted) else None
    }

    constructor (convert: Raw -> Option<Row>)
      ensures Valid() && !closed && statement == null && prepared == {} && delivered == []
    {
      this.convert := convert;
      resultSet, statement, closed := null, null, false;
      prepared, delivered := {}, [];
    }

    /** _finish */
    method Finish()
      requires Valid()
      modifies this`resultSet, this`statement, prepared
      ensures Valid() && resultSet == null && statement == null
    {
      resultSet := null;
      if statement != null {
        statement.Close();
        statement := null;
      }
    }

    /** _close: a second close does nothing, and none does anything once the JVM is gone. */
    method Close(started: bool)
      requires Valid()
      modifies this`resultSet, this`statement, this`closed, prepared
      ensures Valid() && closed == (old(closed) || started)
      ensures closed ==> forall s :: s in prepared ==> !s.open
    {
      if closed || !started { return; }
      Finish();
      closed := true;
    }

    /** execute. `usable` is false if the connection is closed or the thread is a foreign one. */
    method Execute(usable: bool, execution: Execution<Raw>) returns (r: Result<(), Error>)
      requires Valid()
      modifies this`resultSet, this`statement, this`prepared, this`delivered, prepared
      ensures Valid() && old(prepared) <= prepared && fresh(prepared - old(prepared))
      ensures r == if closed || !usable then Err(CursorClosed)
                   else if execution.PrepareFails? || execution.ExecuteFails? then Err(StatementFailed) else Ok(())
      ensures closed || !usable ==>
                resultSet == old(resultSet) && statement == old(statement) && prepared == old(prepared)
      ensures !closed && usable ==>
                && (execution.Query? <==> resultSet != null)
                && (execution.Query? ==>
                      resultSet.rows == execution.rows && delivered == [] && Faithful() && fresh(resultSet))
                && (forall s :: s in old(prepared) ==> !s.open)
    {
      if closed || !usable { return Err(CursorClosed); }
      Finish();
      if execution.PrepareFails? { return Err(StatementFailed); }
      statement := new Statement();
      prepared := prepared + {statement};
      match execution
      case ExecuteFails => return Err(StatementFailed);
      case Query(rows) =>
        resultSet := new ResultSet(rows);
        delivered := [];
        return Ok(());
      case Update => return Ok(());
    }

    /** _check_executed */
    method CheckExecuted(usable: bool) returns (r: Result<(), Error>)
      requires Valid()
      ensures r == if closed || !usable then Err(CursorClosed)
                   else if resultSet == null then Err(NotExecuted) else Ok(())
      ensures r == if Refusal(usable).Some? then Err(Refusal(usable).value) else Ok(())
    {
      if closed || !usable { return Err(CursorClosed); }
      if resultSet == null { return Err(NotExecuted); }
      return Ok(());
    }

    /** The loops of fetchmany and fetchall. A row whose conversion fails has been consumed, and the rows
        collected before it are dropped with it. */
    method ReadRows(size: Option<nat>) returns (r: Result<seq<Row>, Error>)
      requires Valid() && resultSet != null
      modifies resultSet
      ensures Valid()
      ensures Delivery(Progress(resultSet.pos, if r.Ok? then delivered + r.value else delivered), r)
           == Fetched(convert, resultSet.rows, old(Reached()), size)
      ensures r.Ok? <==> AllConvert(convert, Wanted(resultSet.rows, old(resultSet.pos), size))
    {
      hide Rows, AllConvert;
      var rows := [];
      ghost var from, all := resultSet.pos, resultSet.rows;
      ghost var wanted := Wanted(all, from, size);
      RowsOfNone(convert, wanted[..0]);
      while size.None? || |rows| < size.value
        invariant Valid() && resultSet.pos == from + |rows| && |rows| <= |wanted|
        invariant AllConvert(convert, wanted[..|rows|]) && rows == Rows(convert, wanted[..|rows|])
        decreases |all| - resultSet.pos
      {
        var more := resultSet.Next();
        if !more { break; }
        assert all[from + |rows|] == wanted[|rows|];
        NextRow(convert, wanted, |rows|);
        match convert(resultSet.rows[resultSet.pos - 1])
        case None => return Err(ConversionFailed);
        case Some(row) => rows := rows + [row];
      }
      assert wanted[..|rows|] == wanted;
      return Ok(rows);
    }

    /** A fetch succeeds exactly if all the rows it wants convert. It delivers them and keeps the cursor
        faithful; one that fails delivers none and does not. */
    method Fetch(size: Option<nat>) returns (r: Result<seq<Row>, Error>)
      requires Valid() && resultSet != null
      modifies this`delivered, resultSet
      ensures Valid()
      ensures Delivery(Reached(), r) == Fetched(convert, resultSet.rows, old(Reached()), size)
      ensures r.Ok? <==> AllConvert(convert, Wanted(resultSet.rows, old(resultSet.pos), size))
      ensures old(Faithful()) ==> (Faithful() <==> r.Ok?)
    {
      hide Fetched;
      if Faithful() { FetchKeepsFaithful(convert, resultSet.rows, Reached(), size); }
      r := ReadRows(size);
      if r.Ok? {
        delivered := delivered + r.value;
      }
    }

    /** fetchone: None when no row is left. */
    method FetchOne(usable: bool) returns (r: Result<Option<Row>, Error>)
      requires Valid()
      modifies this`delivered, if resultSet == null then {} else {resultSet}
      ensures Valid()
      ensures Refusal(usable).Some? ==>
                r == Err(Refusal(usable).value) && delivered == old(delivered)
                && (resultSet != null ==> resultSet.pos == old(resultSet.pos))
      ensures Refusal(usable).None? ==>
                && r == Following(old(resultSet.pos))
                && Delivery(Reached(), SomeRow(r)) == Fetched(convert, resultSet.rows, old(Reached()), Some(1))
                && (r.Ok? <==> AllConvert(convert, Wanted(resultSet.rows, old(resultSet.pos), Some(1))))
                && (old(Faithful()) ==> (Faithful() <==> r.Ok?))
    {
      var check := CheckExecuted(usable);
      if check.Err? { return Err(check.error); }
      r := Step();
    }

    /** One row, if one is left. */
    method Step() returns (r: Result<Option<Row>, Error>)
      requires Valid() && resultSet != null
      modifies this`delivered, resultSet
      ensures Valid()
      ensures r == Following(old(resultSet.pos))
      ensures Delivery(Reached(), SomeRow(r)) == Fetched(convert, resultSet.rows, old(Reached()), Some(1))
      ensures r.Ok? <==> AllConvert(convert, Wanted(resultSet.rows, old(resultSet.pos), Some(1)))
      ensures old(Faithful()) ==> (Faithful() <==> r.Ok?)
    {
      ghost var wanted := Wanted(resultSet.rows, resultSet.pos, Some(1));
      RowsAre(convert, wanted);
      var rows := Fetch(Some(1));
      if rows.Err? { return Err(rows.error); }
      if rows.value == [] { return Ok(None); }
      assert rows.value == [rows.value[0]];
      return Ok(Some(rows.value[0]));
    }

    /** fetchmany(size), and fetchall for no size. */
    method FetchRows(usable: bool, size: Option<nat>) returns (r: Result<seq<Row>, Error>)
      requires Valid()
      modifies this`delivered, if resultSet == null then {} else {resultSet}
      ensures Valid()
      ensures Refusal(usable).Some? ==>
                r == Err(Refusal(usable).value) && delivered == old(delivered)
                && (resultSet != null ==> resultSet.pos == old(resultSet.pos))
      ensures Refusal(usable).None? ==>
                && Delivery(Reached(), r) == Fetched(convert, resultSet.rows, old(Reached()), size)
                && (r.Ok? <==> AllConvert(convert, Wanted(resultSet.rows, old(resultSet.pos), size)))
                && (old(Faithful()) ==> (Faithful() <==> r.Ok?))
    {
      var check := CheckExecuted(usable);
      if check.Err? { return Err(check.error); }
      r := Fetch(size);
    }
  }

  /** A result of at most one row as a list. */
  function SomeRow<Row>(r: Result<Option<Row>, Error>): Result<seq<Row>, Error> {
    match r
    case Err(e) => Err(e)
    case Ok(None) => Ok([])
    case Ok(Some(row)) => Ok([row])
  }

  lemma {:induction false} GoodIs<Raw, Row>(convert: Raw -> Option<Row>, raws: seq<Raw>, n: nat)
    requires n < |raws| && AllConvert(convert, raws[..n]) && convert(raws[n]).None?
    ensures Good(convert, raws) == n
  {
    if n > 0 {
      assert convert(raws[..n][0]).Some?;
      assert raws[1..][..n - 1] == raws[..n][1..];
      GoodIs(convert, raws[1..], n - 1);
    }
  }

  /** One more row after n that convert: it converts too, or it is the first that does not. */
  lemma NextRow<Raw, Row>(convert: Raw -> Option<Row>, raws: seq<Raw>, n: nat)
    requires n < |raws| && AllConvert(convert, raws[..n])
    ensures match convert(raws[n])
            case None => Good(convert, raws) == n && !AllConvert(convert, raws)
            case Some(row) =>
              AllConvert(convert, raws[..n + 1]) && Rows(convert, raws[..n + 1]) == Rows(convert, raws[..n]) + [row]
  {
    hide AllConvert, Rows, Good;
    if convert(raws[n]).None? {
      GoodIs(convert, raws, n);
      GoodShort(convert, raws);
    } else {
      RowsPlusOne(convert, raws, n);
    }
  }

  lemma GoodShort<Raw, Row>(convert: Raw -> Option<Row>, raws: seq<Raw>)
    ensures Good(convert, raws) == |raws| <==> AllConvert(convert, raws)
  {
  }

  lemma RowsPlusOne<Raw, Row>(convert: Raw -> Option<Row>, raws: seq<Raw>, n: nat)
    requires n < |raws| && AllConvert(convert, raws[..n]) && convert(raws[n]).Some?
    ensures AllConvert(convert, raws[..n + 1])
    ensures Rows(convert, raws[..n + 1]) == Rows(convert, raws[..n]) + [convert(raws[n]).value]
  {
    var more := raws[..n + 1];
    assert more[..n] == raws[..n] && more[n] == raws[n];
    forall i | 0 <= i < |more| ensures convert(more[i]).Some? {
      if i < n { assert convert(raws[..n][i]).Some?; }
    }
    hide AllConvert;
  }

  lemma FetchKeepsFaithful<Raw, Row>(convert: Raw -> Option<Row>, all: seq<Raw>, p: Progress<Row>, size: Option<nat>)
    requires p.pos <= |all| && AllConvert(convert, all[..p.pos]) && p.delivered == Rows(convert, all[..p.pos])
    ensures var d := Fetched(convert, all, p, size);
            d.result.Ok? <==> && AllConvert(convert, all[..d.progress.pos])
                              && d.progress.delivered == Rows(convert, all[..d.progress.pos])
  {
    if AllConvert(convert, Wanted(all, p.pos, size)) {
      GoodFetch(convert, all, p, size);
    } else {
      BadFetch(convert, all, p, size);
    }
    hide Fetched, Rows;
  }

  /** The generator that __iter__ makes. */
  class Generator<!Raw, !Row> {
    const cursor: Cursor<Raw, Row>
    var phase: Phase

    constructor (cursor: Cursor<Raw, Row>)
      ensures this.cursor == cursor && phase == Fresh
    {
      this.cursor, phase := cursor, Fresh;
    }

    /** Resuming it. A suspended one goes on with whatever result set the cursor then has. */
    method Next(usable: bool) returns (r: Result<Option<Row>, Error>)
      requires cursor.Valid()
      modifies this, cursor`delivered, if cursor.resultSet == null then {} else {cursor.resultSet}
      ensures cursor.Valid()
      ensures var checked := cursor.Refusal(usable).None?;
              if !GoesOn(old(phase), checked) || cursor.resultSet == null then
                && phase == Finished && cursor.delivered == old(cursor.delivered)
                && (cursor.resultSet != null ==> cursor.resultSet.pos == old(cursor.resultSet.pos))
                && r == (if old(phase).Finished? then Ok(None)
                         else if old(phase).Suspended? then Err(NoResultSet) else Err(cursor.Refusal(usable).value))
              else
                && phase == PhaseAfter(old(phase), checked, SomeRow(r))
                && Delivery(cursor.Reached(), SomeRow(r))
                == Fetched(cursor.convert, cursor.resultSet.rows, old(cursor.Reached()), Some(1))
      ensures phase == if r.Ok? && r.value.Some? then Suspended else Finished
      ensures cursor.resultSet != null && (old(phase).Suspended? || (old(phase).Fresh? && !cursor.closed && usable)) ==>
                r == cursor.Following(old(cursor.resultSet.pos))
    {
      var was := phase;
      phase := Finished;
      if was.Finished? { return Ok(None); }
      if was.Fresh? {
        var check := cursor.CheckExecuted(usable);
        if check.Err? { return Err(check.error); }
      }
      if cursor.resultSet == null { return Err(NoResultSet); }
      r := cursor.Step();
      if r.Ok? && r.value.Some? { phase := Suspended; }
    }
  }
}
