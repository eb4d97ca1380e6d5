/** The availability API's JSON response, as far as the watcher reads it,
    and the extraction of its slot timestamps (main.py, `_extract_available_slots`). */
module Availabilities {

  datatype Option<T> = None | Some(value: T)

  /** One element of the `availabilities` array. `slots` is `None` when the
      key is missing or null. */
  datatype Entry = Entry(slots: Option<seq<string>>)

  /** A decoded response body. `availabilities` is `None` when the key is
      missing; `otherKeys` counts the remaining top-level keys. A failed fetch
      yields `{}`, which has neither. */
  datatype Response = Response(availabilities: Option<seq<Entry>>, otherKeys: nat)

  /** The body a failed fetch is replaced by. */
  const EmptyResponse := Response(None, 0)

  /** Python truthiness of the decoded dict: false exactly for `{}`, which
      is the body a failed fetch is replaced by. */
  predicate IsEmpty(data: Response) {
    data.availabilities.None? && data.otherKeys == 0
  }

  /** What one entry contributes: its `slots` list when that is truthy
      (present, non-null, non-empty), nothing otherwise. */
  function SlotsOf(e: Entry): (r: seq<string>)
    ensures r == [] || e.slots == Some(r)
    ensures r == [] <==> e.slots.None? || e.slots.value == []
  {
    if e.slots.Some? && |e.slots.value| > 0 then e.slots.value else []
  }

  /** The slots of a run of entries, flattened in entry order. */
  function Flatten(entries: seq<Entry>): seq<string>
  {
    if |entries| == 0 then []
    else SlotsOf(entries[0]) + Flatten(entries[1..])
  }

  /** A slot is in the flattening exactly when some entry contributes it. */
  lemma {:induction false} FlattenMembers(entries: seq<Entry>, x: string)
    ensures x in Flatten(entries) <==> exists i :: 0 <= i < |entries| && x in SlotsOf(entries[i])
    decreases |entries|
  {
    if |entries| > 0 {
      var tail := entries[1..];
      FlattenMembers(tail, x);
      if x in Flatten(entries) && x !in SlotsOf(entries[0]) {
        var i :| 0 <= i < |tail| && x in SlotsOf(tail[i]);
        assert tail[i] == entries[i + 1];
      }
      if exists i :: 0 <= i < |entries| && x in SlotsOf(entries[i]) {
        var i :| 0 <= i < |entries| && x in SlotsOf(entries[i]);
        if i > 0 {
          assert tail[i - 1] == entries[i];
        }
      }
    }
  }

  /** Flattening respects concatenation of entry runs, so slots keep the
      order of their entries. */
  lemma {:induction false} FlattenAppend(a: seq<Entry>, b: seq<Entry>)
    ensures Flatten(a + b) == Flatten(a) + Flatten(b)
    decreases |a|
  {
    if |a| > 0 {
      assert (a + b)[1..] == a[1..] + b;
      FlattenAppend(a[1..], b);
    } else {
      assert a + b == b;
    }
  }

  /** `_extract_available_slots`: no `availabilities` key gives no slots;
      otherwise every slot of every entry with a truthy `slots` list. */
  function ExtractSlots(data: Response): (slots: seq<string>)
    ensures data.availabilities.None? ==> slots == []
  {
    match data.availabilities
    case None => []
    case Some(entries) => Flatten(entries)
  }

  /** A slot is extracted exactly when an entry of the `availabilities`
      array holds it in a truthy `slots` list. */
  lemma ExtractSlotsMembers(data: Response, x: string)
    ensures x in ExtractSlots(data) <==>
      data.availabilities.Some? &&
      exists i :: 0 <= i < |data.availabilities.value| && x in SlotsOf(data.availabilities.value[i])
  {
    if data.availabilities.Some? {
      FlattenMembers(data.availabilities.value, x);
    }
  }

  /** An entry with a truthy `slots` list contributes that list, contiguously
      and in place: everything before it comes from earlier entries and
      everything after from later ones. */
  lemma EntryContributesInPlace(entries: seq<Entry>, i: nat)
    requires i < |entries|
    requires entries[i].slots.Some? && |entries[i].slots.value| > 0
    ensures Flatten(entries) == Flatten(entries[..i]) + entries[i].slots.value + Flatten(entries[i + 1..])
  {
    assert entries == entries[..i] + ([entries[i]] + entries[i + 1..]);
    FlattenAppend(entries[..i], [entries[i]] + entries[i + 1..]);
    assert ([entries[i]] + entries[i + 1..])[1..] == entries[i + 1..];
  }

  /** In a whole response: an entry with a truthy `slots` list contributes
      that list contiguously, after the slots of the entries before it and
      before those of the entries after it. */
  lemma ExtractSlotsInPlace(data: Response, i: nat)
    requires data.availabilities.Some? && i < |data.availabilities.value|
    requires data.availabilities.value[i].slots.Some? && |data.availabilities.value[i].slots.value| > 0
    ensures var entries := data.availabilities.value;
            ExtractSlots(data) == Flatten(entries[..i]) + entries[i].slots.value + Flatten(entries[i + 1..])
  {
    EntryContributesInPlace(data.availabilities.value, i);
  }
}
