/** The SMS text built at the end of main.py's `_process_doctor`. The
    rendering of one slot (`_format_slot_time`) is a parameter `formatSlot`. */
module Notification {
  import opened Strings

  /** Sent, spelled as in the source, when a pass finds nothing new. */
  const NoNewSlotsMessage := "nO NEW SLOTS FOUND"

  /** At most this many slots are listed in one message. */
  const MaxListed := 10

  /** First line of a message with new slots. */
  function Header(name: string): string {
    "New slots for " + name + ":"
  }

  /** Last line of a message that lists only some of the new slots. */
  function MoreLine(hidden: nat): string {
    "... and " + NatToString(hidden) + " more slots"
  }

  /** `[self._format_slot_time(slot) for slot in new_slots]`. */
  function FormatAll(slots: seq<string>, formatSlot: string -> string): (r: seq<string>)
    ensures |r| == |slots|
    ensures forall i :: 0 <= i < |slots| ==> r[i] == formatSlot(slots[i])
  {
    seq(|slots|, i requires 0 <= i < |slots| => formatSlot(slots[i]))
  }

  function Min(a: int, b: int): int {
    if a < b then a else b
  }

  /** The message `_process_doctor` hands to `_send_sms`: the fixed idle text
      exactly when nothing is new. */
  function ComposeMessage(name: string, newSlots: seq<string>, formatSlot: string -> string): (msg: string)
    ensures msg == NoNewSlotsMessage <==> |newSlots| == 0
  {
    if |newSlots| > 0 then
      var formatted := FormatAll(newSlots, formatSlot);
      var message := Header(name) + "\n" + Join(formatted[..Min(|formatted|, MaxListed)], "\n");
      assert message[0] == 'N';
      if |newSlots| > MaxListed then message + "\n" + MoreLine(|newSlots| - MaxListed)
      else message
    else
      NoNewSlotsMessage
  }

  /** The lines a message with new slots consists of. */
  function MessageLines(name: string, newSlots: seq<string>, formatSlot: string -> string): seq<string> {
    var n := |newSlots|;
    [Header(name)] + FormatAll(newSlots, formatSlot)[..Min(n, MaxListed)]
    + (if n > MaxListed then [MoreLine(n - MaxListed)] else [])
  }

  lemma DigitsHaveNoNewline(s: string)
    requires IsDigits(s)
    ensures '\n' !in s
  {
    forall i | 0 <= i < |s| ensures s[i] != '\n' {
      assert '0' <= s[i] <= '9';
    }
  }

  /** Neither fixed line of a message holds a line break of its own. */
  lemma FixedLinesHaveNoNewline(name: string, hidden: nat)
    requires '\n' !in name
    ensures '\n' !in Header(name)
    ensures '\n' !in MoreLine(hidden)
  {
    var head := Header(name);
    assert head == "New slots for " + name + ":";
    var digits := NatToString(hidden);
    DigitsHaveNoNewline(digits);
    assert MoreLine(hidden) == "... and " + digits + " more slots";
  }

  /** A message with new slots is its lines joined by line breaks. */
  lemma MessageIsJoin(name: string, newSlots: seq<string>, formatSlot: string -> string)
    requires |newSlots| >= 1
    ensures ComposeMessage(name, newSlots, formatSlot) == Join(MessageLines(name, newSlots, formatSlot), "\n")
  {
    var n := |newSlots|;
    var listed := FormatAll(newSlots, formatSlot)[..Min(n, MaxListed)];
    var head := Header(name);
    var lines := MessageLines(name, newSlots, formatSlot);
    JoinCons(head, listed, "\n");
    if n > MaxListed {
      var more := MoreLine(n - MaxListed);
      assert lines == ([head] + listed) + [more];
      JoinSnoc([head] + listed, more, "\n");
    } else {
      assert lines == [head] + listed;
    }
  }

  /** Read line by line (when neither the name nor a rendered slot holds a
      line break), a message with `n >= 1` new slots is the header, the first
      `min(n, 10)` rendered slots in order, and, exactly when `n > 10`, a line
      counting the `n - 10` slots left out. */
  lemma MessageReadsAsLines(name: string, newSlots: seq<string>, formatSlot: string -> string)
    requires |newSlots| >= 1
    requires '\n' !in name
    requires forall i :: 0 <= i < |newSlots| ==> '\n' !in formatSlot(newSlots[i])
    ensures Split(ComposeMessage(name, newSlots, formatSlot), '\n') == MessageLines(name, newSlots, formatSlot)
  {
    var n := |newSlots|;
    var lines := MessageLines(name, newSlots, formatSlot);
    MessageIsJoin(name, newSlots, formatSlot);
    FixedLinesHaveNoNewline(name, if n > MaxListed then n - MaxListed else 0);
    assert forall i :: 0 <= i < |lines| ==> '\n' !in lines[i] by {
      var listed := FormatAll(newSlots, formatSlot)[..Min(n, MaxListed)];
      forall i | 0 <= i < |lines| ensures '\n' !in lines[i] {
        if 1 <= i <= |listed| {
          assert lines[i] == formatSlot(newSlots[i - 1]);
        }
      }
    }
    SplitJoin(lines, '\n');
  }

  /** The count in the last line reads back as the number of slots left out. */
  lemma HiddenCountReadsBack(name: string, newSlots: seq<string>, formatSlot: string -> string)
    requires |newSlots| > MaxListed
    ensures var lines := MessageLines(name, newSlots, formatSlot);
            var last := lines[|lines| - 1];
            var digits := NatToString(|newSlots| - MaxListed);
            && last == "... and " + digits + " more slots"
            && ParseNat(digits) == |newSlots| - MaxListed
  {
    ParseNatToString(|newSlots| - MaxListed);
  }
}
