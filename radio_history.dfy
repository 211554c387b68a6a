/** `RadioHistory`: the in-memory list of operations the application keeps.
    Every entry records the operation, the cipher and a preview of the text;
    its frequency (a random value) and its timestamp (the clock) are handed
    in by the caller. */
module RadioHistory {
  import opened CSharpInt

  datatype RadioEntry = RadioEntry(
    frequency: real,
    operationType: string,
    cipherName: string,
    preview: string,
    timestamp: int)

  /** The longest text kept whole in a preview. */
  const PreviewLength := 30

  /** `Preview`: the text when it has at most 30 characters, otherwise its
      first 30 characters followed by `...`. */
  function Preview(text: string): (p: string)
    ensures |p| <= PreviewLength + 3
    ensures |text| <= PreviewLength ==> p == text
    ensures |text| > PreviewLength ==> |p| == PreviewLength + 3 && p[..PreviewLength] == text[..PreviewLength] && p[PreviewLength..] == "..."
  {
    if |text| > PreviewLength then text[..PreviewLength] + "..." else text
  }

  /** A preview is its own preview: the 33 characters of a shortened one are
      shortened back to themselves. */
  lemma PreviewIdempotent(text: string)
    ensures Preview(Preview(text)) == Preview(text)
  {
    var p := Preview(text);
    if |text| > PreviewLength {
      assert p[..PreviewLength] + "..." == p;
    }
  }

  /** The list without the element at `index`, the others in order. */
  function Removed(entries: seq<RadioEntry>, index: nat): (r: seq<RadioEntry>)
    requires index < |entries|
    ensures |r| == |entries| - 1
    ensures forall j :: 0 <= j < index ==> r[j] == entries[j]
    ensures forall j :: index <= j < |r| ==> r[j] == entries[j + 1]
  {
    entries[..index] + entries[index + 1..]
  }

  /** Removing an element and putting it back where it was restores the
      list. */
  lemma RemovedRestore(entries: seq<RadioEntry>, index: nat)
    requires index < |entries|
    ensures Removed(entries, index)[..index] + [entries[index]] + Removed(entries, index)[index..] == entries
  {
    var r := Removed(entries, index);
    assert r[..index] == entries[..index];
    assert r[index..] == entries[index + 1..];
    assert entries[..index] + [entries[index]] + entries[index + 1..] == entries;
  }

  /** The static class, as an object whose `entries` field is `_history`. */
  class History {
    var entries: seq<RadioEntry>

    /** The static constructor: `Load` leaves in the list what the history
        file held (nothing when it is missing or unreadable). */
    constructor (loaded: seq<RadioEntry>)
      ensures entries == loaded
    {
      entries := loaded;
    }

    /** `AddEntry`: one entry at the end, with the preview of `text`; the
        earlier entries are unchanged. */
    method AddEntry(operationType: string, cipherName: string, text: string, frequency: real, timestamp: int)
      modifies this
      ensures entries == old(entries) + [RadioEntry(frequency, operationType, cipherName, Preview(text), timestamp)]
      ensures |entries| == |old(entries)| + 1 && entries[..|old(entries)|] == old(entries)
    {
      var entry := RadioEntry(frequency, operationType, cipherName, Preview(text), timestamp);
      entries := entries + [entry];
    }

    /** `GetAll`: a read-only view of the list. */
    function GetAll(): seq<RadioEntry>
      reads this
    {
      entries
    }

    /** `ClearHistory`: the list is emptied. */
    method ClearHistory()
      modifies this
      ensures entries == [] && GetEntryCount() == 0
    {
      entries := [];
    }

    /** `RemoveEntry`: an index inside the list removes that entry and
        answers true; any other index changes nothing and answers false. */
    method RemoveEntry(index: int32) returns (removed: bool)
      modifies this
      ensures removed <==> 0 <= index < |old(entries)|
      ensures removed ==> entries == Removed(old(entries), index as nat) && |entries| == |old(entries)| - 1
      ensures !removed ==> entries == old(entries)
    {
      if index >= 0 && index as int < |entries| {
        entries := Removed(entries, index as nat);
        return true;
      }
      return false;
    }

    /** `GetEntryCount`: the number of entries `GetAll` returns. */
    function GetEntryCount(): (n: nat)
      reads this
      ensures n == |GetAll()|
    {
      |entries|
    }
  }
}
