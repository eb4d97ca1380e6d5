/** The in-memory duplicate filter of main.py's `_process_doctor`: a slot
    is new when the string `doctor_name + ":" + slot` is not yet in
    `sent_slots`, and that string is added at once. */
module Dedup {

  /** The dedup key `f"{doctor_name}:{slot}"`: a plain string, so two
      (name, slot) pairs that differ only in where the `:` falls share it. */
  function SlotKey(name: string, slot: string): string {
    name + ":" + slot
  }

  /** When neither doctor name holds a `:`, the key determines the name and
      the slot. */
  lemma SlotKeyInjective(name1: string, slot1: string, name2: string, slot2: string)
    requires ':' !in name1 && ':' !in name2
    requires SlotKey(name1, slot1) == SlotKey(name2, slot2)
    ensures name1 == name2 && slot1 == slot2
  {
    var k := SlotKey(name1, slot1);
    assert k == SlotKey(name2, slot2);
    assert k[|name1|] == ':' && k[|name2|] == ':';
    assert forall j :: 0 <= j < |name1| ==> k[j] == name1[j];
    assert forall j :: 0 <= j < |name2| ==> k[j] == name2[j];
    assert |name1| == |name2|;
    assert name1 == k[..|name1|] == name2;
    assert slot1 == k[|name1| + 1..] == slot2;
  }

  /** The keys of a run of slots of one doctor. */
  function KeysOf(name: string, slots: seq<string>): set<string> {
    set s | s in slots :: SlotKey(name, s)
  }

  lemma KeysOfCons(name: string, x: string, xs: seq<string>)
    ensures KeysOf(name, [x] + xs) == {SlotKey(name, x)} + KeysOf(name, xs)
  {
  }

  lemma KeysOfAppend(name: string, xs: seq<string>, ys: seq<string>)
    ensures KeysOf(name, xs + ys) == KeysOf(name, xs) + KeysOf(name, ys)
  {
  }

  /** A non-empty run has a key. */
  lemma KeysOfNonEmpty(name: string, slots: seq<string>)
    requires |slots| > 0
    ensures SlotKey(name, slots[0]) in KeysOf(name, slots)
  {
  }

  /** No two slots of the run share a key. */
  predicate DistinctKeys(name: string, slots: seq<string>) {
    forall i, j :: 0 <= i < j < |slots| ==> SlotKey(name, slots[i]) != SlotKey(name, slots[j])
  }

  /** The state of the pass: the slots found new so far and `sent_slots`. */
  datatype Pass = Pass(found: seq<string>, sent: set<string>)

  /** The inner loop of the pass over one run of slots, starting from the
      set `sent`: each slot whose key is not in the set is kept and its key
      inserted before the next slot is looked at. */
  function DedupSlots(name: string, slots: seq<string>, sent: set<string>): (p: Pass)
    decreases |slots|
  {
    if |slots| == 0 then Pass([], sent)
    else
      var key := SlotKey(name, slots[0]);
      var rest := DedupSlots(name, slots[1..], sent + {key});
      var kept := if key in sent then [] else [slots[0]];
      Pass(kept + rest.found, rest.sent)
  }

  /** Every slot found new was looked at, and its key was not in the set
      the pass started from. */
  lemma {:induction false} DedupFoundUnsent(name: string, slots: seq<string>, sent: set<string>)
    ensures forall x :: x in DedupSlots(name, slots, sent).found ==> x in slots && SlotKey(name, x) !in sent
    decreases |slots|
  {
    if |slots| > 0 {
      var key := SlotKey(name, slots[0]);
      DedupFoundUnsent(name, slots[1..], sent + {key});
    }
  }

  /** After the pass the set holds the old keys and the key of every slot
      looked at, new or not. */
  lemma {:induction false} DedupSent(name: string, slots: seq<string>, sent: set<string>)
    ensures DedupSlots(name, slots, sent).sent == sent + KeysOf(name, slots)
    decreases |slots|
  {
    if |slots| > 0 {
      var key := SlotKey(name, slots[0]);
      DedupSent(name, slots[1..], sent + {key});
      KeysOfCons(name, slots[0], slots[1..]);
      assert slots == [slots[0]] + slots[1..];
    }
  }

  /** The keys of the slots found new are exactly the keys of the slots
      looked at that were not in the set before. */
  lemma {:induction false} DedupFoundKeys(name: string, slots: seq<string>, sent: set<string>)
    ensures KeysOf(name, DedupSlots(name, slots, sent).found) == KeysOf(name, slots) - sent
    decreases |slots|
  {
    if |slots| > 0 {
      var key := SlotKey(name, slots[0]);
      var rest := DedupSlots(name, slots[1..], sent + {key});
      var kept := if key in sent then [] else [slots[0]];
      DedupFoundKeys(name, slots[1..], sent + {key});
      KeysOfCons(name, slots[0], slots[1..]);
      assert slots == [slots[0]] + slots[1..];
      KeysOfAppend(name, kept, rest.found);
    }
  }

  /** No two slots found new share a key. */
  lemma {:induction false} DedupDistinct(name: string, slots: seq<string>, sent: set<string>)
    ensures DistinctKeys(name, DedupSlots(name, slots, sent).found)
    decreases |slots|
  {
    if |slots| > 0 {
      var key := SlotKey(name, slots[0]);
      var rest := DedupSlots(name, slots[1..], sent + {key});
      DedupDistinct(name, slots[1..], sent + {key});
      if key !in sent {
        DedupFoundUnsent(name, slots[1..], sent + {key});
        var f := [slots[0]] + rest.found;
        forall i, j | 0 <= i < j < |f| ensures SlotKey(name, f[i]) != SlotKey(name, f[j]) {
          assert f[j] == rest.found[j - 1];
          if i > 0 { assert f[i] == rest.found[i - 1]; }
        }
      }
    }
  }

  /** Reference: the `i`-th slot is kept exactly when its key is neither in
      the initial set nor the key of an earlier slot. Defined from the back,
      one slot at a time, independently of the fold. */
  ghost function FirstNew(name: string, slots: seq<string>, sent: set<string>): seq<string>
    decreases |slots|
  {
    if |slots| == 0 then []
    else
      var init := slots[..|slots| - 1];
      var key := SlotKey(name, slots[|slots| - 1]);
      FirstNew(name, init, sent) + (if key !in sent && key !in KeysOf(name, init) then [slots[|slots| - 1]] else [])
  }

  /** The pass over a concatenation is the pass over the first run followed
      by the pass over the second run from the set the first one left. */
  lemma {:induction false} DedupAppend(name: string, a: seq<string>, b: seq<string>, sent: set<string>)
    ensures var p := DedupSlots(name, a, sent);
            var q := DedupSlots(name, b, p.sent);
            DedupSlots(name, a + b, sent) == Pass(p.found + q.found, q.sent)
    decreases |a|
  {
    if |a| == 0 {
      assert a + b == b;
    } else {
      var key := SlotKey(name, a[0]);
      var ab := a + b;
      assert ab[0] == a[0] && ab[1..] == a[1..] + b;
      var kept := if key in sent then [] else [a[0]];
      var r := DedupSlots(name, a[1..], sent + {key});
      var q := DedupSlots(name, b, r.sent);
      DedupAppend(name, a[1..], b, sent + {key});
      assert kept + (r.found + q.found) == (kept + r.found) + q.found;
    }
  }

  /** One more slot: it is kept exactly when its key is not yet in the set. */
  lemma DedupSnoc(name: string, a: seq<string>, x: string, sent: set<string>)
    ensures var p := DedupSlots(name, a, sent);
            var key := SlotKey(name, x);
            DedupSlots(name, a + [x], sent)
            == Pass(p.found + (if key in p.sent then [] else [x]), p.sent + {key})
  {
    DedupAppend(name, a, [x], sent);
    var p := DedupSlots(name, a, sent);
    assert [x][1..] == [];
    if SlotKey(name, x) !in p.sent {
      assert DedupSlots(name, [x], p.sent).found == [x] + DedupSlots(name, [], p.sent + {SlotKey(name, x)}).found;
    }
  }

  /** The fold keeps exactly the slots the reference keeps, in the same order. */
  lemma {:induction false} DedupMatchesReference(name: string, slots: seq<string>, sent: set<string>)
    ensures DedupSlots(name, slots, sent).found == FirstNew(name, slots, sent)
    decreases |slots|
  {
    if |slots| > 0 {
      var init := slots[..|slots| - 1];
      var x := slots[|slots| - 1];
      assert slots == init + [x];
      DedupMatchesReference(name, init, sent);
      DedupSnoc(name, init, x, sent);
      DedupSent(name, init, sent);
    }
  }

  /** A second pass over the same slots finds nothing new and leaves the
      set as it was. */
  lemma DedupRepeatFindsNothing(name: string, slots: seq<string>, sent: set<string>)
    ensures var p := DedupSlots(name, slots, sent);
            DedupSlots(name, slots, p.sent) == Pass([], p.sent)
  {
    var p := DedupSlots(name, slots, sent);
    var q := DedupSlots(name, slots, p.sent);
    DedupSent(name, slots, sent);
    DedupSent(name, slots, p.sent);
    DedupFoundKeys(name, slots, p.sent);
    if |q.found| > 0 {
      KeysOfNonEmpty(name, q.found);
    }
  }

  /** A slot announced by one pass is not announced by any later pass that
      starts from the set the first pass left. */
  lemma NeverAnnouncedTwice(name: string, a: seq<string>, b: seq<string>, sent: set<string>)
    ensures var p := DedupSlots(name, a, sent);
            var q := DedupSlots(name, b, p.sent);
            KeysOf(name, p.found) !! KeysOf(name, q.found)
  {
    var p := DedupSlots(name, a, sent);
    DedupSent(name, a, sent);
    DedupFoundKeys(name, a, sent);
    DedupFoundKeys(name, b, p.sent);
  }

  /** Because the key is the joined string, a slot announced for one doctor
      can hide a slot of another doctor whose name contains `:`: doctor
      `"A"` with slot `"B:C"` and doctor `"A:B"` with slot `"C"` share the key
      `"A:B:C"`. */
  lemma KeysCollideAcrossNames()
    ensures SlotKey("A", "B:C") == SlotKey("A:B", "C")
    ensures DedupSlots("A:B", ["C"], DedupSlots("A", ["B:C"], {}).sent).found == []
  {
    assert SlotKey("A", "B:C") == SlotKey("A:B", "C");
  }
}
