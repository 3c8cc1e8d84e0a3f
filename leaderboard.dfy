/**
 * The score board behind the `/api/leaderboard` endpoint: one in-memory array
 * of entries shared by every request, kept sorted by score, highest first,
 * and cut to the best hundred after each submission.
 */
module Leaderboard {
  import opened Wrappers

  const MAX_ENTRIES: nat := 100
  const TOP_COUNT: nat := 10
  const NAME_LENGTH: nat := 20

  datatype Entry = Entry(id: string, name: string, score: int, timestamp: int)

  /**
   * The JSON body of a submission, as far as the handler looks at it: `name`
   * is None when it is missing or a falsy value that is not a string (truthy
   * names that are not strings are not modelled), `score` is None when it is
   * not a number.
   */
  datatype Payload = Payload(name: Option<string>, score: Option<real>)

  /** `body` is None when the request carries no body at all. */
  datatype Request = Request(httpMethod: string, body: Option<Payload>)

  datatype Reply =
    | NoContent
    | ErrorBody(error: string)
    | Top(entries: seq<Entry>)
    | Submitted(success: bool, rank: int, entry: Entry)

  datatype Response = Response(status: int, headers: seq<(string, string)>, reply: Reply)

  /** The CORS headers every response carries. */
  const CORS_HEADERS: seq<(string, string)> := [
    ("Access-Control-Allow-Credentials", "true"),
    ("Access-Control-Allow-Origin", "*"),
    ("Access-Control-Allow-Methods", "GET,POST,OPTIONS"),
    ("Access-Control-Allow-Headers", "Content-Type")
  ]

  function Respond(status: int, reply: Reply): Response {
    Response(status, CORS_HEADERS, reply)
  }

  // ---------------------------------------------------------------------------
  // Ordering
  // ---------------------------------------------------------------------------

  /** Highest score first. */
  ghost predicate Sorted(s: seq<Entry>) {
    forall i, j :: 0 <= i < j < |s| ==> s[i].score >= s[j].score
  }

  /** How many entries score at least `x`. */
  function Ahead(s: seq<Entry>, x: int): (n: nat)
    ensures n <= |s|
    ensures n == 0 <==> forall k :: 0 <= k < |s| ==> s[k].score < x
    ensures n == |s| <==> forall k :: 0 <= k < |s| ==> s[k].score >= x
  {
    if s == [] then 0 else (if s[0].score >= x then 1 else 0) + Ahead(s[1..], x)
  }

  /** The length of the leading run of entries scoring at least `x`. */
  function Lead(s: seq<Entry>, x: int): (n: nat)
    ensures n <= |s|
    ensures forall k :: 0 <= k < n ==> s[k].score >= x
    ensures n < |s| ==> s[n].score < x
  {
    if s != [] && s[0].score >= x then 1 + Lead(s[1..], x) else 0
  }

  /** In a sorted board the leading run is every entry scoring at least `x`. */
  lemma {:induction false} LeadCounts(s: seq<Entry>, x: int)
    requires Sorted(s)
    ensures Lead(s, x) == Ahead(s, x)
    decreases |s|
  {
    if s != [] {
      assert Sorted(s[1..]);
      LeadCounts(s[1..], x);
      if s[0].score < x {
        NoneAhead(s[1..], x);
      }
    }
  }

  lemma {:induction false} NoneAhead(s: seq<Entry>, x: int)
    requires forall k :: 0 <= k < |s| ==> s[k].score < x
    ensures Ahead(s, x) == 0
    decreases |s|
  {
    if s != [] {
      NoneAhead(s[1..], x);
    }
  }

  /** Places `e` after the leading run of entries that score at least as much. */
  function InsertAfterTies(s: seq<Entry>, e: Entry): (r: seq<Entry>)
    ensures r == s[..Lead(s, e.score)] + [e] + s[Lead(s, e.score)..]
    decreases |s|
  {
    if s == [] then [e]
    else if s[0].score >= e.score then
      ConsSplice(s, e, Lead(s[1..], e.score));
      [s[0]] + InsertAfterTies(s[1..], e)
    else
      [e] + s
  }

  lemma ConsSplice(s: seq<Entry>, e: Entry, n: nat)
    requires n < |s|
    ensures [s[0]] + (s[1..][..n] + [e] + s[1..][n..]) == s[..n + 1] + [e] + s[n + 1..]
  {
    assert s[..n + 1] == [s[0]] + s[1..][..n];
    assert s[n + 1..] == s[1..][n..];
  }

  /** Inserting adds exactly the new entry. */
  lemma InsertAdds(s: seq<Entry>, e: Entry)
    ensures |InsertAfterTies(s, e)| == |s| + 1
    ensures multiset(InsertAfterTies(s, e)) == multiset(s) + multiset{e}
  {
    Splice(s, e, Lead(s, e.score));
  }

  lemma Splice(s: seq<Entry>, e: Entry, n: nat)
    requires n <= |s|
    ensures |s[..n] + [e] + s[n..]| == |s| + 1
    ensures multiset(s[..n] + [e] + s[n..]) == multiset(s) + multiset{e}
  {
    assert s == s[..n] + s[n..];
  }

  /** Inserting into a sorted board keeps it sorted. */
  lemma InsertSorted(s: seq<Entry>, e: Entry)
    requires Sorted(s)
    ensures Sorted(InsertAfterTies(s, e))
  {
    var n := Lead(s, e.score);
    SortedBelow(s, n, e.score);
    SpliceSorted(s, e, n);
  }

  /** Past the first entry below `x`, a sorted board stays below `x`. */
  lemma SortedBelow(s: seq<Entry>, n: nat, x: int)
    requires Sorted(s) && n <= |s| && (n < |s| ==> s[n].score < x)
    ensures forall k :: n <= k < |s| ==> s[k].score < x
  {
    if n < |s| {
      assert forall k :: n <= k < |s| ==> s[k].score <= s[n].score;
    }
  }

  /** Splicing an entry between the higher and the lower part of a sorted board keeps it sorted. */
  lemma SpliceSorted(s: seq<Entry>, e: Entry, n: nat)
    requires Sorted(s) && n <= |s|
    requires forall k :: 0 <= k < n ==> s[k].score >= e.score
    requires forall k :: n <= k < |s| ==> s[k].score < e.score
    ensures Sorted(s[..n] + [e] + s[n..])
  {
    var r := s[..n] + [e] + s[n..];
    forall i, j | 0 <= i < j < |r| ensures r[i].score >= r[j].score {
      var a := if i < n then s[i] else if i == n then e else s[i - 1];
      var b := if j < n then s[j] else if j == n then e else s[j - 1];
      assert r[i] == a && r[j] == b;
    }
  }

  /**
   * `Array.prototype.sort((a, b) => b.score - a.score)`: the sort is stable,
   * so each entry is placed after every earlier entry scoring at least as much.
   */
  function SortDesc(s: seq<Entry>): (r: seq<Entry>)
    ensures Sorted(r)
    ensures multiset(r) == multiset(s)
    ensures |r| == |s|
    decreases |s|
  {
    if s == [] then []
    else
      var init := s[..|s| - 1];
      assert s == init + [s[|s| - 1]];
      InsertSorted(SortDesc(init), s[|s| - 1]);
      InsertAdds(SortDesc(init), s[|s| - 1]);
      InsertAfterTies(SortDesc(init), s[|s| - 1])
  }

  /** Sorting a board that is already sorted changes nothing. */
  lemma {:induction false} SortSorted(s: seq<Entry>)
    requires Sorted(s)
    ensures SortDesc(s) == s
    decreases |s|
  {
    if s != [] {
      var init := s[..|s| - 1];
      var last := s[|s| - 1];
      assert s == init + [last];
      SortedSplit(s, init, last);
      SortSorted(init);
      SortStep(s);
      LeadFull(init, last.score);
      SpliceEnd(init, last);
    }
  }

  /** Sorting places the last entry into the sorted rest. */
  lemma SortStep(s: seq<Entry>)
    requires s != []
    ensures SortDesc(s) == InsertAfterTies(SortDesc(s[..|s| - 1]), s[|s| - 1])
  {
  }

  lemma SpliceEnd(s: seq<Entry>, e: Entry)
    ensures s[..|s|] + [e] + s[|s|..] == s + [e]
  {
    assert s[..|s|] == s && s[|s|..] == [];
  }

  /** A sorted board without its last entry is sorted, and that entry scores lowest. */
  lemma SortedSplit(s: seq<Entry>, init: seq<Entry>, last: Entry)
    requires Sorted(s) && s == init + [last]
    ensures Sorted(init)
    ensures forall k :: 0 <= k < |init| ==> init[k].score >= last.score
  {
    assert forall k :: 0 <= k < |init| ==> init[k] == s[k];
    assert last == s[|s| - 1];
  }

  lemma LeadFull(s: seq<Entry>, x: int)
    requires forall k :: 0 <= k < |s| ==> s[k].score >= x
    ensures Lead(s, x) == |s|
  {
  }

  /** `slice(0, n)`. */
  function Take(s: seq<Entry>, n: nat): (r: seq<Entry>)
    ensures |r| == if |s| < n then |s| else n
    ensures r == s[..|r|]
  {
    if |s| <= n then s else s[..n]
  }

  /** `findIndex(entry => entry.id === id)`. */
  function FindIndex(s: seq<Entry>, id: string): (r: int)
    ensures -1 <= r < |s|
    decreases |s|
  {
    if s == [] then -1
    else if s[0].id == id then 0
    else
      var r := FindIndex(s[1..], id);
      if r == -1 then -1 else r + 1
  }

  /** `findIndex` gives the first position holding `id`, or -1 when there is none. */
  lemma {:induction false} FindIndexFirst(s: seq<Entry>, id: string)
    ensures var r := FindIndex(s, id);
            && (r == -1 <==> forall k :: 0 <= k < |s| ==> s[k].id != id)
            && (r >= 0 ==> s[r].id == id && forall k :: 0 <= k < r ==> s[k].id != id)
    decreases |s|
  {
    if s != [] && s[0].id != id {
      FindIndexFirst(s[1..], id);
      assert forall k :: 1 <= k < |s| ==> s[k] == s[1..][k - 1];
    }
  }

  // ---------------------------------------------------------------------------
  // The submitted name
  // ---------------------------------------------------------------------------

  /**
   * The characters `String.prototype.trim` strips: the white space and line
   * terminator code points of section 12.2 and 12.3 of ECMA-262.
   */
  predicate IsTrimmed(c: char) {
    || c == '\U{9}' || c == '\U{B}' || c == '\U{C}' || c == ' ' || c == '\U{A0}' || c == '\U{FEFF}'
    || c == '\U{1680}' || ('\U{2000}' <= c <= '\U{200A}') || c == '\U{202F}' || c == '\U{205F}' || c == '\U{3000}'
    || c == '\U{A}' || c == '\U{D}' || c == '\U{2028}' || c == '\U{2029}'
  }

  function TrimStart(s: string): (r: string)
    ensures |r| <= |s| && r == s[|s| - |r|..]
    ensures forall k :: 0 <= k < |s| - |r| ==> IsTrimmed(s[k])
    ensures r == [] || !IsTrimmed(r[0])
    decreases |s|
  {
    if s != [] && IsTrimmed(s[0]) then TrimStart(s[1..]) else s
  }

  function TrimEnd(s: string): (r: string)
    ensures |r| <= |s| && r == s[..|r|]
    ensures forall k :: |r| <= k < |s| ==> IsTrimmed(s[k])
    ensures r == [] || !IsTrimmed(r[|r| - 1])
    decreases |s|
  {
    if s != [] && IsTrimmed(s[|s| - 1]) then TrimEnd(s[..|s| - 1]) else s
  }

  /** How many white-space characters `trim()` drops from the front. */
  function LeadingSpace(s: string): (n: nat)
    ensures n <= |s|
  {
    |s| - |TrimStart(s)|
  }

  /**
   * `trim()`: what is left between the white space at the front and the white
   * space at the back; it neither starts nor ends with white space.
   */
  function Trim(s: string): (r: string)
    ensures LeadingSpace(s) + |r| <= |s|
    ensures r == s[LeadingSpace(s)..LeadingSpace(s) + |r|]
    ensures forall k :: 0 <= k < LeadingSpace(s) ==> IsTrimmed(s[k])
    ensures forall k :: LeadingSpace(s) + |r| <= k < |s| ==> IsTrimmed(s[k])
    ensures r == [] || (!IsTrimmed(r[0]) && !IsTrimmed(r[|r| - 1]))
  {
    var t := TrimStart(s);
    var r := TrimEnd(t);
    TrimParts(s, t, r);
    r
  }

  /** A prefix of a suffix is a slice; what the prefix leaves of the suffix lies at the back of the whole. */
  lemma TrimParts(s: string, t: string, r: string)
    requires |t| <= |s| && t == s[|s| - |t|..]
    requires |r| <= |t| && r == t[..|r|]
    requires forall k :: |r| <= k < |t| ==> IsTrimmed(t[k])
    ensures r == s[|s| - |t|..|s| - |t| + |r|]
    ensures forall k :: |s| - |t| + |r| <= k < |s| ==> IsTrimmed(s[k])
  {
    forall k | |s| - |t| + |r| <= k < |s| ensures IsTrimmed(s[k]) {
      assert s[k] == t[k - (|s| - |t|)];
    }
  }

  /** Trimming leaves nothing exactly when every character is white space. */
  lemma TrimEmpty(s: string)
    ensures Trim(s) == [] <==> forall k :: 0 <= k < |s| ==> IsTrimmed(s[k])
  {
    var r := Trim(s);
    if r != [] {
      assert s[LeadingSpace(s)] == r[0];
    }
  }

  /** A trimmed string trims to itself. */
  lemma TrimIdempotent(s: string)
    ensures Trim(Trim(s)) == Trim(s)
  {
    var r := Trim(s);
    if r != [] {
      assert TrimStart(r) == r;
      assert TrimEnd(r) == r;
    }
  }

  /** `String(name).trim().substring(0, 20)`. */
  function Sanitize(name: string): (r: string)
    ensures |r| == if |Trim(name)| < NAME_LENGTH then |Trim(name)| else NAME_LENGTH
    ensures r == Trim(name)[..|r|]
  {
    var t := Trim(name);
    if |t| <= NAME_LENGTH then t else t[..NAME_LENGTH]
  }

  /** A name survives sanitising exactly when it holds a character other than white space. */
  lemma SanitizeEmpty(name: string)
    ensures Sanitize(name) == [] <==> forall k :: 0 <= k < |name| ==> IsTrimmed(name[k])
  {
    TrimEmpty(name);
  }

  // ---------------------------------------------------------------------------
  // Submissions
  // ---------------------------------------------------------------------------

  /** `!name || typeof score !== 'number'`. */
  predicate Invalid(p: Payload) {
    p.name.None? || p.name.value == "" || p.score.None?
  }

  /** The entry a valid submission creates, its score rounded down. */
  function NewEntry(p: Payload, id: string, now: int): (e: Entry)
    requires !Invalid(p)
    ensures e.id == id && e.name == Sanitize(p.name.value) && e.timestamp == now
    ensures e.score as real <= p.score.value < e.score as real + 1.0
  {
    Entry(id, Sanitize(p.name.value), p.score.value.Floor, now)
  }

  /** The board after a new entry: sorted with it, then the best hundred kept. */
  function Admit(board: seq<Entry>, e: Entry): (r: seq<Entry>)
    ensures Sorted(r) && |r| <= MAX_ENTRIES
    ensures multiset(r) <= multiset(board) + multiset{e}
  {
    var sorted := SortDesc(board + [e]);
    var r := Take(sorted, MAX_ENTRIES);
    assert sorted == r + sorted[|r|..];
    r
  }

  /**
   * What a POST does to the board and answers: 500 without a body, 400 for
   * invalid data or a name that trims to nothing, both leaving the board as
   * it was; otherwise the new entry is admitted and its rank reported.
   */
  ghost predicate PostOutcome(before: seq<Entry>, body: Option<Payload>, newId: string, now: int,
                              after: seq<Entry>, res: Response) {
    if body.None? then res == Respond(500, ErrorBody("Failed to submit score")) && after == before
    else if Invalid(body.value) then res == Respond(400, ErrorBody("Invalid data")) && after == before
    else if Sanitize(body.value.name.value) == "" then res == Respond(400, ErrorBody("Name is required")) && after == before
    else
      var e := NewEntry(body.value, newId, now);
      after == Admit(before, e) && res == Respond(200, Submitted(true, FindIndex(after, newId) + 1, e))
  }

  /** From a sorted board, admitting keeps the best hundred, the new entry right after its ties. */
  lemma AdmitSorted(board: seq<Entry>, e: Entry)
    requires Sorted(board)
    ensures var n := Ahead(board, e.score);
            Admit(board, e) == Take(board[..n] + [e] + board[n..], MAX_ENTRIES)
  {
    var s := board + [e];
    assert s[..|s| - 1] == board;
    SortSorted(board);
    LeadCounts(board, e.score);
  }

  /**
   * The rank a submission reports: one more than the number of entries that
   * scored at least as much, or 0 when that pushes it out of the best hundred.
   * The id must be new to the board; otherwise `findIndex` may find an
   * older entry.
   */
  lemma RankOfAdmitted(board: seq<Entry>, e: Entry)
    requires Sorted(board)
    requires forall k :: 0 <= k < |board| ==> board[k].id != e.id
    ensures var n := Ahead(board, e.score);
            var r := Admit(board, e);
            && FindIndex(r, e.id) + 1 == (if n < MAX_ENTRIES then n + 1 else 0)
            && (n < MAX_ENTRIES ==> r[n] == e)
  {
    AdmitSorted(board, e);
    RankInSplice(board, e, Ahead(board, e.score));
  }

  /** Where `findIndex` finds an entry with a fresh id spliced in at `n`, after the cut. */
  lemma RankInSplice(board: seq<Entry>, e: Entry, n: nat)
    requires n <= |board|
    requires forall k :: 0 <= k < |board| ==> board[k].id != e.id
    ensures var r := Take(board[..n] + [e] + board[n..], MAX_ENTRIES);
            && FindIndex(r, e.id) + 1 == (if n < MAX_ENTRIES then n + 1 else 0)
            && (n < MAX_ENTRIES ==> r[n] == e)
  {
    var all := board[..n] + [e] + board[n..];
    var r := Take(all, MAX_ENTRIES);
    FindIndexFirst(r, e.id);
    if n < MAX_ENTRIES {
      assert r[n] == e;
      forall k | 0 <= k < n ensures r[k].id != e.id {
        assert r[k] == board[k];
      }
    } else {
      forall k | 0 <= k < |r| ensures r[k].id != e.id {
        assert r[k] == board[k];
      }
    }
  }

  /** An entry that is cut off scores no more than any entry that stays, and only a full board cuts. */
  lemma AdmitKeepsBest(board: seq<Entry>, e: Entry, x: Entry)
    requires x in multiset(board) + multiset{e}
    requires x !in Admit(board, e)
    ensures forall k :: 0 <= k < |Admit(board, e)| ==> Admit(board, e)[k].score >= x.score
    ensures |Admit(board, e)| == MAX_ENTRIES
  {
    var sorted := SortDesc(board + [e]);
    assert x in multiset(sorted);
    TakeKeepsBest(sorted, x);
  }

  lemma TakeKeepsBest(s: seq<Entry>, x: Entry)
    requires Sorted(s) && x in s && x !in Take(s, MAX_ENTRIES)
    ensures forall k :: 0 <= k < |Take(s, MAX_ENTRIES)| ==> Take(s, MAX_ENTRIES)[k].score >= x.score
    ensures |Take(s, MAX_ENTRIES)| == MAX_ENTRIES
  {
    var r := Take(s, MAX_ENTRIES);
    var j :| 0 <= j < |s| && s[j] == x;
    assert s == r + s[|r|..];
    assert forall k :: 0 <= k < |r| ==> r[k] == s[k];
  }

  // ---------------------------------------------------------------------------
  // The shared board and the handler
  // ---------------------------------------------------------------------------

  class Board {
    /** The module-level `leaderboard` array. */
    var entries: seq<Entry>

    ghost predicate Valid()
      reads this
    {
      Sorted(entries) && |entries| <= MAX_ENTRIES
    }

    constructor()
      ensures entries == [] && Valid()
    {
      entries := [];
    }

    /**
     * `handler(req, res)`. `newId` and `now` stand for the id the handler
     * builds from the clock and a random number, and the clock itself.
     */
    method Handle(req: Request, newId: string, now: int) returns (res: Response)
      requires Valid()
      modifies this
      ensures Valid()
      ensures res.headers == CORS_HEADERS
      ensures req.httpMethod == "OPTIONS" ==> res.status == 200 && res.reply == NoContent && entries == old(entries)
      ensures req.httpMethod == "GET" ==>
                res.status == 200 && res.reply == Top(Take(old(entries), TOP_COUNT)) && entries == old(entries)
      ensures req.httpMethod == "POST" ==> PostOutcome(old(entries), req.body, newId, now, entries, res)
      ensures req.httpMethod !in {"OPTIONS", "GET", "POST"} ==>
                res == Respond(405, ErrorBody("Method not allowed")) && entries == old(entries)
    {
      if req.httpMethod == "OPTIONS" {
        return Respond(200, NoContent);
      }
      if req.httpMethod == "GET" {
        res := Fetch();
        return;
      }
      if req.httpMethod == "POST" {
        res := Submit(req.body, newId, now);
        return;
      }
      return Respond(405, ErrorBody("Method not allowed"));
    }

    /** GET: the board is sorted in place, then its first ten entries are sent. */
    method Fetch() returns (res: Response)
      requires Valid()
      modifies this
      ensures entries == old(entries)
      ensures res == Respond(200, Top(Take(entries, TOP_COUNT)))
      ensures |res.reply.entries| <= TOP_COUNT && Sorted(res.reply.entries)
    {
      SortSorted(entries);
      entries := SortDesc(entries);
      res := Respond(200, Top(Take(entries, TOP_COUNT)));
    }

    /** POST: validate, build the entry, push it, sort, keep the best hundred, report its rank. */
    method Submit(body: Option<Payload>, newId: string, now: int) returns (res: Response)
      requires Valid()
      modifies this
      ensures Valid()
      ensures PostOutcome(old(entries), body, newId, now, entries, res)
    {
      if body.None? {
        return Respond(500, ErrorBody("Failed to submit score"));
      }
      var p := body.value;
      if Invalid(p) {
        return Respond(400, ErrorBody("Invalid data"));
      }
      var name := Sanitize(p.name.value);
      if name == "" {
        return Respond(400, ErrorBody("Name is required"));
      }
      var e := NewEntry(p, newId, now);
      ghost var before := entries;
      entries := entries + [e];
      entries := Take(SortDesc(entries), MAX_ENTRIES);
      assert entries == Admit(before, e);
      var rank := FindIndex(entries, newId) + 1;
      res := Respond(200, Submitted(true, rank, e));
    }
  }
}
