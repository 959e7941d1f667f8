/** PasswordManager: the credential map, its dirty flag, and the outcome
    messages each operation leaves in the terminal buffer. */
module Manager {
  import opened Text
  import opened HexE
  import opened CustomIO
  import opened CustomTerminal

  const MsgNoAppName: string := "Password requires an app name, try again!"
  const MsgAdded: string := "Password added successfully!"
  const MsgDeleted: string := "Password deleted successfully!"
  const MsgNotFound: string := "Could not find entry."
  const MsgHeader: string := "Saved Passwords:"
  const MsgNoPasswords: string := "  No passwords saved!"
  const MsgSaveProblem: string := "There was a problem while attempting to save data to file."
  const MsgNoChanges: string := "No changes were made, did not save to file."

  /** The listing line of one entry. */
  function EntryText(app: Str, pass: Str): string
  {
    "  - App: " + app + ", Password: " + pass
  }

  /** The buffered listing lines of the keys in `order`. */
  function EntryLines(m: map<Str, Str>, order: seq<Str>): (r: seq<string>)
    requires forall k :: k in order ==> k in m
    ensures |r| == |order|
  {
    if order == [] then []
    else EntryLines(m, order[..|order| - 1]) + [WithLineBreaks(EntryText(order[|order| - 1], m[order[|order| - 1]]), 1)]
  }

  /** What ViewPasswords adds to the buffer when it visits the keys in
      `order`: a header line first and a blank line last, around one line per
      visited key, or one "No passwords saved!" line for an empty map. */
  function ViewMessages(m: map<Str, Str>, order: seq<Str>): (r: seq<string>)
    requires forall k :: k in order ==> k in m
    ensures |r| == 2 + (if |m| == 0 then 1 else |order|)
    ensures r[0] == "Saved Passwords:\n" && r[|r| - 1] == "\n"
    ensures |m| == 0 ==> r[1] == "  No passwords saved!\n"
  {
    assert Repeat('\n', 1) == "\n";
    [WithLineBreaks(MsgHeader, 1)]
    + (if |m| != 0 then EntryLines(m, order) else [WithLineBreaks(MsgNoPasswords, 1)])
    + [WithLineBreaks([], 1)]
  }

  /** What CommitData adds to the buffer: nothing after a successful save;
      otherwise "No changes" last, preceded by the "problem" message when a
      save of dirty data failed. */
  function CommitMessages(dirty: bool, saved: bool): (r: seq<string>)
    ensures r == [] <==> dirty && saved
    ensures !dirty ==> |r| == 1
    ensures r != [] ==> r[|r| - 1] == WithLineBreaks(MsgNoChanges, 2)
    ensures |r| == 2 <==> dirty && !saved
    ensures |r| == 2 ==> r[0] == WithLineBreaks(MsgSaveProblem, 2)
  {
    if dirty && saved then []
    else if dirty then [WithLineBreaks(MsgSaveProblem, 2), WithLineBreaks(MsgNoChanges, 2)]
    else [WithLineBreaks(MsgNoChanges, 2)]
  }

  lemma EntryLinesAppend(m: map<Str, Str>, order: seq<Str>, k: Str)
    requires forall x :: x in order ==> x in m
    requires k in m
    ensures EntryLines(m, order + [k]) == EntryLines(m, order) + [WithLineBreaks(EntryText(k, m[k]), 1)]
  {
    assert (order + [k])[..|order|] == order;
  }

  lemma {:induction false} EntryLinesAt(m: map<Str, Str>, order: seq<Str>, i: nat)
    requires forall k :: k in order ==> k in m
    requires i < |order|
    ensures EntryLines(m, order)[i] == WithLineBreaks(EntryText(order[i], m[order[i]]), 1)
  {
    if i < |order| - 1 {
      var front := order[..|order| - 1];
      EntryLinesAt(m, front, i);
    }
  }

  /** The listing in visiting order: a header, then one line per entry (or
      the "No passwords saved!" line for an empty map), then a blank line. */
  lemma ViewMessagesShape(m: map<Str, Str>, order: seq<Str>)
    requires IsEnumeration(order, m)
    ensures |order| == |m|
    ensures |ViewMessages(m, order)| == 2 + (if |m| == 0 then 1 else |m|)
    ensures forall i :: 0 <= i < |order| ==>
              ViewMessages(m, order)[i + 1] == WithLineBreaks(EntryText(order[i], m[order[i]]), 1)
  {
    EnumerationLength(order, m);
    var v := ViewMessages(m, order);
    forall i | 0 <= i < |order|
      ensures v[i + 1] == WithLineBreaks(EntryText(order[i], m[order[i]]), 1)
    {
      EntryLinesAt(m, order, i);
    }
  }

  class PasswordManager {
    var dataMap: map<Str, Str>
    var hasUpdated: bool

    /** The map is the loaded data; nothing is dirty yet. This is the only
        place the flag is set to false. */
    constructor (data: map<Str, Str>)
      ensures dataMap == data && !hasUpdated
    {
      dataMap := data;
      hasUpdated := false;
    }

    /** AddPassword: an empty name changes nothing and is reported; otherwise
        the entry is inserted or overwritten and the map becomes dirty. */
    method AddPassword(app: Str, pass: Str, term: Terminal)
      modifies this, term
      ensures app == [] ==> dataMap == old(dataMap) && hasUpdated == old(hasUpdated)
      ensures app != [] ==> dataMap == old(dataMap)[app := pass] && hasUpdated
      ensures term.buffer == old(term.buffer) + [WithLineBreaks(if app == [] then MsgNoAppName else MsgAdded, 2)]
    {
      if app == [] {
        term.AddMessageToBuffer(MsgNoAppName, 2);
        return;
      }
      if !hasUpdated {
        hasUpdated := true;
      }
      dataMap := dataMap[app := pass];
      term.AddMessageToBuffer(MsgAdded, 2);
    }

    /** DeletePassword: the map becomes dirty whether or not the key was
        there; the key is gone afterwards and every other entry stays. */
    method DeletePassword(app: Str, term: Terminal)
      modifies this, term
      ensures hasUpdated
      ensures dataMap == old(dataMap) - {app}
      ensures term.buffer == old(term.buffer) + [WithLineBreaks(if app in old(dataMap) then MsgDeleted else MsgNotFound, 2)]
    {
      if !hasUpdated {
        hasUpdated := true;
      }
      if app in dataMap {
        dataMap := dataMap - {app};
        term.AddMessageToBuffer(MsgDeleted, 2);
        return;
      }
      term.AddMessageToBuffer(MsgNotFound, 2);
    }

    /** ViewPasswords: only the buffer changes; the entries are listed in the
        map's iteration order, which the model leaves open and reports as `order`. */
    method ViewPasswords(term: Terminal) returns (ghost order: seq<Str>)
      modifies term
      ensures IsEnumeration(order, dataMap)
      ensures term.buffer == old(term.buffer) + ViewMessages(dataMap, order)
    {
      term.AddMessageToBuffer(MsgHeader, 1);
      ghost var start := term.buffer;
      order := [];
      if |dataMap| != 0 {
        var remaining := dataMap.Keys;
        while remaining != {}
          invariant Visited(order, dataMap.Keys, remaining)
          invariant term.buffer == start + EntryLines(dataMap, order)
          decreases remaining
        {
          var app :| app in remaining;
          term.AddMessageToBuffer(EntryText(app, dataMap[app]), 1);
          EntryLinesAppend(dataMap, order, app);
          VisitStep(order, dataMap.Keys, remaining, app);
          order := order + [app];
          remaining := remaining - {app};
        }
        VisitDone(order, dataMap);
      } else {
        term.AddMessageToBuffer(MsgNoPasswords, 1);
      }
      term.AddMessageToBuffer([], 1);
    }

    /** CommitData: saves only when the map is dirty, reports true exactly
        when that save succeeded, and never clears the flag. What it writes
        loads back as the map. */
    method CommitData(before: Option<Str>, writable: bool, encryption: HexEncryption, term: Terminal)
      returns (committed: bool, after: Option<Str>, ghost order: seq<Str>)
      modifies term
      ensures committed == (hasUpdated && writable)
      ensures !committed ==> after == before
      ensures committed ==> IsEnumeration(order, dataMap) && after == Some(Serialize(dataMap, order))
      ensures committed ==> WellFormed(after.value) && Load(after) == dataMap
      ensures term.buffer == old(term.buffer) + CommitMessages(hasUpdated, writable)
    {
      after, order := before, [];
      if hasUpdated {
        var ok;
        ok, after, order := SaveToFile(dataMap, before, writable, encryption);
        if !ok {
          term.AddMessageToBuffer(MsgSaveProblem, 2);
        } else {
          SaveLoadRoundTrip(dataMap, order);
          return true, after, order;
        }
      }
      term.AddMessageToBuffer(MsgNoChanges, 2);
      return false, after, order;
    }
  }
}
