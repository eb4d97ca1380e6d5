/** One call of main.py's `DoctolibWatcher._process_doctor`, without its
    side effects: the fetches are a parameter `fetch` (the decoded body the
    request of each window got this cycle, `{}` for a failure) and the SMS is the
    message the call hands to `_send_sms`. */
module Watcher {
  import opened Availabilities
  import opened UrlWindows
  import opened Dedup
  import opened Notification

  /** One entry of the doctor configuration, `{"name": ..., "url": ...}`. */
  datatype Doctor = Doctor(name: string, url: string)

  /** What one `_process_doctor` call does: the URLs it fetches, the slots it
      finds new, `sent_slots` afterwards, and the message it sends. */
  datatype Outcome = Outcome(urls: seq<string>, newSlots: seq<string>, sent: set<string>, message: string)

  /** The responses in URL order, as `asyncio.gather` returns them. Each
      window is its own request: `fetch(i, url)` is what the request of
      window `i` got this cycle, so two windows with the same URL may still
      get different answers (one times out, the other succeeds). */
  function Responses(urls: seq<string>, fetch: (nat, string) -> Response): (results: seq<Response>)
    ensures |results| == |urls|
    ensures forall i :: 0 <= i < |urls| ==> results[i] == fetch(i, urls[i])
  {
    seq(|urls|, i requires 0 <= i < |urls| => fetch(i, urls[i]))
  }

  /** The slots of every non-empty response, concatenated in window order. */
  function AllSlots(results: seq<Response>): seq<string>
    decreases |results|
  {
    if |results| == 0 then []
    else
      var last := results[|results| - 1];
      AllSlots(results[..|results| - 1]) + (if IsEmpty(last) then [] else ExtractSlots(last))
  }

  /** Skipping empty responses changes nothing: a response contributes its
      extracted slots, in place, whether or not it is empty. */
  lemma AllSlotsSnoc(results: seq<Response>, data: Response)
    ensures AllSlots(results + [data]) == AllSlots(results) + ExtractSlots(data)
  {
    assert (results + [data])[..|results|] == results;
  }

  /** Every slot of every response of the cycle is gathered. */
  lemma {:induction false} AllSlotsIncludes(results: seq<Response>, i: nat, x: string)
    requires i < |results| && x in ExtractSlots(results[i])
    ensures x in AllSlots(results)
    decreases |results|
  {
    var n := |results| - 1;
    var init := results[..n];
    AllSlotsSnoc(init, results[n]);
    assert init + [results[n]] == results;
    if i < n {
      assert init[i] == results[i];
      AllSlotsIncludes(init, i, x);
    }
  }

  /** Every gathered slot comes from some response of the cycle. */
  lemma {:induction false} AllSlotsSource(results: seq<Response>, x: string) returns (i: nat)
    requires x in AllSlots(results)
    ensures i < |results| && x in ExtractSlots(results[i])
    decreases |results|
  {
    var n := |results| - 1;
    var init := results[..n];
    AllSlotsSnoc(init, results[n]);
    assert init + [results[n]] == results;
    if x in AllSlots(init) {
      i := AllSlotsSource(init, x);
      assert init[i] == results[i];
    } else {
      i := n;
    }
  }

  /** Any answers at all, one per window, are what some `fetch` gives: the
      windows succeed, fail or change independently of one another, even
      when their URLs coincide. */
  lemma AnyAnswersPossible(urls: seq<string>, answers: seq<Response>) returns (fetch: (nat, string) -> Response)
    requires |answers| == |urls|
    ensures Responses(urls, fetch) == answers
  {
    fetch := (i: nat, url: string) => if i < |answers| then answers[i] else EmptyResponse;
    var results := Responses(urls, fetch);
    assert forall i :: 0 <= i < |urls| ==> results[i] == answers[i];
  }

  /** One more response continues the pass over the slots of the earlier
      ones; an empty response leaves it where it was. */
  lemma ResponseStep(name: string, results: seq<Response>, data: Response, sent: set<string>)
    ensures var p := DedupSlots(name, AllSlots(results), sent);
            var q := DedupSlots(name, ExtractSlots(data), p.sent);
            DedupSlots(name, AllSlots(results + [data]), sent)
            == if IsEmpty(data) then p else Pass(p.found + q.found, q.sent)
  {
    var before := AllSlots(results);
    AllSlotsSnoc(results, data);
    if IsEmpty(data) {
      assert before + ExtractSlots(data) == before;
    } else {
      DedupAppend(name, before, ExtractSlots(data), sent);
    }
  }

  /** The inner loop of the pass (the slots of one response): appends the
      slots whose key is not yet in the set to `found`, inserting each key at
      once. */
  method AddNewSlots(name: string, slots: seq<string>, found: seq<string>, sent: set<string>)
    returns (found': seq<string>, sent': set<string>)
    ensures var p := DedupSlots(name, slots, sent);
            found' == found + p.found && sent' == p.sent
  {
    found' := found;
    sent' := sent;
    var j := 0;
    while j < |slots|
      invariant 0 <= j <= |slots|
      invariant var p := DedupSlots(name, slots[..j], sent);
                found' == found + p.found && sent' == p.sent
    {
      var slotId := SlotKey(name, slots[j]);
      ghost var p := DedupSlots(name, slots[..j], sent);
      ghost var q := DedupSlots(name, slots[..j + 1], sent);
      assert slots[..j + 1] == slots[..j] + [slots[j]];
      DedupSnoc(name, slots[..j], slots[j], sent);
      if slotId !in sent' {
        found' := found' + [slots[j]];
        sent' := sent' + {slotId};
        assert found' == found + q.found by {
          assert q.found == p.found + [slots[j]];
        }
      } else {
        assert sent' == p.sent + {slotId};
      }
      j := j + 1;
    }
    assert slots[..j] == slots;
  }

  /** `_process_doctor` without the fetch and SMS side effects: the URLs of
      the windows, the pass over the slots their responses hold, and the
      message built from the slots it found new. */
  method ProcessDoctor(doctor: Doctor, today: int, days: int, sent: set<string>,
                       dateStr: int -> string, fetch: (nat, string) -> Response, formatSlot: string -> string)
    returns (out: Outcome)
    ensures |out.urls| == WindowCount(days)
    ensures forall i :: 0 <= i < |out.urls| ==> out.urls[i] == UrlWithDate(doctor.url, dateStr(WindowStart(today, i)))
    ensures Pass(out.newSlots, out.sent) == DedupSlots(doctor.name, AllSlots(Responses(out.urls, fetch)), sent)
    ensures out.message == ComposeMessage(doctor.name, out.newSlots, formatSlot)
  {
    var urls := GenerateUrlsForPeriod(doctor.url, today, days, dateStr);
    var results := Responses(urls, fetch);
    var newSlots: seq<string> := [];
    var sentSlots := sent;
    var i := 0;
    while i < |results|
      invariant 0 <= i <= |results|
      invariant Pass(newSlots, sentSlots) == DedupSlots(doctor.name, AllSlots(results[..i]), sent)
    {
      var data := results[i];
      ResponseStep(doctor.name, results[..i], data, sent);
      if !IsEmpty(data) {
        var slots := ExtractSlots(data);
        newSlots, sentSlots := AddNewSlots(doctor.name, slots, newSlots, sentSlots);
      }
      assert results[..i + 1] == results[..i] + [data];
      i := i + 1;
    }
    assert results[..i] == results;
    var message := ComposeMessage(doctor.name, newSlots, formatSlot);
    out := Outcome(urls, newSlots, sentSlots, message);
  }

  /** What a cycle leaves behind: exactly the first-new slots are
      announced, with distinct keys; every key of every extracted slot is in
      the set afterwards, whatever the message and whether or not it is
      delivered. */
  lemma CycleOutcome(name: string, slots: seq<string>, sent: set<string>, newSlots: seq<string>, sent': set<string>)
    requires Pass(newSlots, sent') == DedupSlots(name, slots, sent)
    ensures newSlots == FirstNew(name, slots, sent)
    ensures sent' == sent + KeysOf(name, slots)
    ensures KeysOf(name, newSlots) == KeysOf(name, slots) - sent
    ensures DistinctKeys(name, newSlots)
  {
    DedupMatchesReference(name, slots, sent);
    DedupSent(name, slots, sent);
    DedupFoundKeys(name, slots, sent);
    DedupDistinct(name, slots, sent);
  }

  /** A response whose one entry holds one slot yields exactly that slot. */
  lemma OneSlotResponse(slot: string)
    ensures AllSlots([Response(Some([Entry(Some([slot]))]), 0)]) == [slot]
  {
    var data := Response(Some([Entry(Some([slot]))]), 0);
    var e := Entry(Some([slot]));
    assert SlotsOf(e) == [slot];
    assert [e][1..] == [];
    assert ExtractSlots(data) == Flatten([e]) == SlotsOf(e) + Flatten([]);
    AllSlotsSnoc([], data);
    assert [] + [data] == [data];
  }

  /** One new slot gives a two-line message: the header and the slot. */
  lemma OneSlotMessage(name: string, slot: string, formatSlot: string -> string)
    ensures ComposeMessage(name, [slot], formatSlot) == Header(name) + "\n" + formatSlot(slot)
  {
    var formatted := FormatAll([slot], formatSlot);
    assert formatted[..Min(1, MaxListed)] == [formatSlot(slot)];
  }

  /** One response with one slot, an empty set: the slot is announced, its
      key recorded, and the same response in the next cycle yields the idle
      message. */
  lemma OneSlotTwoCycles(name: string, slot: string, formatSlot: string -> string)
    ensures var data := Response(Some([Entry(Some([slot]))]), 0);
            var first := DedupSlots(name, AllSlots([data]), {});
            var second := DedupSlots(name, AllSlots([data]), first.sent);
            && first == Pass([slot], {SlotKey(name, slot)})
            && ComposeMessage(name, first.found, formatSlot) == Header(name) + "\n" + formatSlot(slot)
            && second == Pass([], first.sent)
            && ComposeMessage(name, second.found, formatSlot) == NoNewSlotsMessage
  {
    OneSlotResponse(slot);
    assert [slot][1..] == [];
    var key := SlotKey(name, slot);
    assert DedupSlots(name, [slot], {}) == Pass([slot] + DedupSlots(name, [], {key}).found, DedupSlots(name, [], {key}).sent);
    DedupRepeatFindsNothing(name, [slot], {});
    OneSlotMessage(name, slot, formatSlot);
  }
}
