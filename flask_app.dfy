/**
 * The Flask back end (app.py): the catalog of creature types loaded once at
 * start-up, and the per-session history that `/api/generate` extends (most
 * recent first, at most 50 entries) and `/api/reset` clears.
 */
module FlaskApp {
  import opened Text
  import opened LineFile

  /** How many entries the session history keeps. */
  const HistoryCap: nat := 50

  /** The session key under which the history is stored. */
  const HistoryKey: string := "history"

  /** The error body and status `/api/generate` answers with when the catalog
      is empty. */
  const NoCreatureTypesError: string := "No creature types available."
  const ServerErrorStatus: nat := 500

  /** The catalog read from the text of creature_types.txt: every line
      stripped, the blank ones dropped, in file order. */
  function LoadCatalog(text: string): (catalog: seq<string>)
    ensures forall e :: e in catalog ==> Storable(e)
    ensures forall i :: 0 <= i < |Lines(text)| && !AllSpace(Lines(text)[i]) ==> Strip(Lines(text)[i]) in catalog
    ensures forall e :: e in catalog ==> exists i :: 0 <= i < |Lines(text)| && Strip(Lines(text)[i]) == e
    ensures catalog == DropEmpty(StripAll(Lines(text)))
  {
    ParsedEntriesStorable(text);
    StrippedNonBlankMembers(Lines(text));
    StrippedNonBlankIsFiltered(Lines(text));
    StrippedNonBlank(Lines(text))
  }

  /** Python's slice `s[:n]`: the first `n` elements, or all of `s` when it
      is shorter. */
  function Take<T>(s: seq<T>, n: nat): (r: seq<T>)
    ensures |r| == if |s| < n then |s| else n
    ensures r == s[..|r|]
  {
    if |s| <= n then s else s[..n]
  }

  /** The history after one successful generation: `history.insert(0, item)`
      then `history[:50]`. The new item comes first, the result never exceeds
      the cap, and the rest is the old history with only its oldest entries
      beyond the 49th dropped. */
  function Prepend(history: seq<string>, item: string): (r: seq<string>)
    ensures 1 <= |r| <= HistoryCap
    ensures |r| == if |history| < HistoryCap then |history| + 1 else HistoryCap
    ensures r[0] == item
    ensures r[1..] == Take(history, HistoryCap - 1)
  {
    var grown := [item] + history;
    assert grown[1..] == history;
    Take(grown, HistoryCap)
  }

  /** The first generation after a reset leaves exactly the new item. */
  lemma GenerateAfterReset(item: string)
    ensures Prepend([], item) == [item]
  {
  }

  /** `s` backwards. */
  function Reversed<T>(s: seq<T>): (r: seq<T>)
    ensures |r| == |s|
  {
    if s == [] then [] else [s[|s| - 1]] + Reversed(s[..|s| - 1])
  }

  /** The history after generating the items of `picks` in order, starting
      from `history`. */
  function HistoryAfter(history: seq<string>, picks: seq<string>): seq<string>
  {
    if picks == [] then history
    else Prepend(HistoryAfter(history, picks[..|picks| - 1]), picks[|picks| - 1])
  }

  /** Truncating before or after putting one element in front makes no
      difference once the result is truncated again. */
  lemma TakeCons<T>(x: T, s: seq<T>, n: nat)
    requires n >= 1
    ensures Take([x] + Take(s, n), n) == Take([x] + s, n)
  {
    var a, b := [x] + Take(s, n), [x] + s;
    assert |Take(a, n)| == |Take(b, n)|;
    forall i | 0 <= i < |Take(a, n)| ensures Take(a, n)[i] == Take(b, n)[i] {
      if i > 0 {
        assert a[i] == Take(s, n)[i - 1] == s[i - 1];
      }
    }
  }

  /** The history is most recent first: after any run of generations from a
      history the application could have produced, it holds the new items
      newest first followed by the old history, cut to the 50 most recent. */
  lemma {:induction false} HistoryIsMostRecentFirst(history: seq<string>, picks: seq<string>)
    requires |history| <= HistoryCap
    ensures HistoryAfter(history, picks) == Take(Reversed(picks) + history, HistoryCap)
  {
    if picks == [] {
      assert Take(Reversed(picks) + history, HistoryCap) == history;
    } else {
      var earlier, last := picks[..|picks| - 1], picks[|picks| - 1];
      var older := Reversed(earlier) + history;
      calc {
        HistoryAfter(history, picks);
        Prepend(HistoryAfter(history, earlier), last);
        { HistoryIsMostRecentFirst(history, earlier); }
        Prepend(Take(older, HistoryCap), last);
        Take([last] + Take(older, HistoryCap), HistoryCap);
        { TakeCons(last, older, HistoryCap); }
        Take([last] + older, HistoryCap);
        { assert [last] + older == Reversed(picks) + history; }
        Take(Reversed(picks) + history, HistoryCap);
      }
    }
  }

  /** What `/api/generate` answers: the chosen type and the new history, or
      the error body with its status code. */
  datatype Response =
    | Generated(creatureType: string, history: seq<string>)
    | Failed(error: string, status: nat)

  /** One client's Flask session: a key/value store in which only the history
      key is used. */
  class Session {
    var data: map<string, seq<string>>

    /** The session's history, an absent key reading as the empty list
        (`session.get('history', [])`). */
    function History(): seq<string>
      reads this
    {
      if HistoryKey in data then data[HistoryKey] else []
    }

    /** A stored history never exceeds the cap. */
    ghost predicate Valid()
      reads this
    {
      |History()| <= HistoryCap
    }

    /** A new session holds no history. */
    constructor ()
      ensures Valid()
      ensures data == map[] && History() == []
    {
      data := map[];
    }

    /** `GET /api/generate`, with `pick` standing for the index
        `random.choice` draws. */
    method GenerateCreature(creatureTypes: seq<string>, pick: nat) returns (response: Response)
      requires Valid()
      requires creatureTypes != [] ==> pick < |creatureTypes|
      modifies this
      ensures Valid()
      ensures creatureTypes == [] ==>
        response == Failed(NoCreatureTypesError, ServerErrorStatus) && data == old(data)
      ensures creatureTypes != [] ==>
        && data == old(data)[HistoryKey := Prepend(old(History()), creatureTypes[pick])]
        && response == Generated(creatureTypes[pick], History())
        && response.creatureType in creatureTypes
        && response.history[0] == response.creatureType
    {
      if creatureTypes == [] {
        return Failed(NoCreatureTypesError, ServerErrorStatus);
      }
      var chosen := creatureTypes[pick];
      var history := if HistoryKey in data then data[HistoryKey] else [];
      history := [chosen] + history;
      data := data[HistoryKey := Take(history, HistoryCap)];
      response := Generated(chosen, data[HistoryKey]);
    }

    /** `POST /api/reset`: the history becomes empty whatever it was, every
        other key untouched, so a second reset changes nothing. */
    method ResetHistory() returns (success: bool)
      modifies this
      ensures Valid()
      ensures success
      ensures data == old(data)[HistoryKey := []]
      ensures History() == []
    {
      data := data[HistoryKey := []];
      success := true;
    }
  }
}
