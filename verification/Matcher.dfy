/** The streaming substring matcher behind boot-slot detection, and exactly which needles it never misses. */
module Matcher {

  type Text = seq<char>

  /** One byte: how many needle bytes are matched after it. A full match is final. */
  function Next(needle: Text, matched: nat, value: char): (m: nat)
    requires 0 < |needle| && matched <= |needle|
    ensures m <= matched + 1 && m <= |needle|
  {
    if matched == |needle| then matched
    else if value == needle[matched] then matched + 1
    else if value == needle[0] then 1
    else 0
  }

  function Scan(needle: Text, matched: nat, text: Text): (m: nat)
    requires 0 < |needle| && matched <= |needle|
    ensures m <= |needle|
  {
    if text == [] then matched
    else Next(needle, Scan(needle, matched, text[..|text| - 1]), text[|text| - 1])
  }

  predicate Finds(needle: Text, text: Text)
    requires 0 < |needle|
  {
    Scan(needle, 0, text) == |needle|
  }

  predicate OccursAt(needle: Text, text: Text, at: nat) {
    at + |needle| <= |text| && text[at..at + |needle|] == needle
  }

  ghost predicate Occurs(needle: Text, text: Text) {
    exists at: nat :: OccursAt(needle, text, at)
  }

  function Flatten(chunks: seq<Text>): Text {
    if chunks == [] then [] else Flatten(chunks[..|chunks| - 1]) + chunks[|chunks| - 1]
  }

  /** Scanning in two pieces is scanning the whole. */
  lemma {:induction false} ScanAppend(needle: Text, matched: nat, a: Text, b: Text)
    requires 0 < |needle| && matched <= |needle|
    ensures Scan(needle, matched, a + b) == Scan(needle, Scan(needle, matched, a), b)
  {
    if b == [] {
      assert a + b == a;
    } else {
      assert (a + b)[..|a + b| - 1] == a + b[..|b| - 1];
      ScanAppend(needle, matched, a, b[..|b| - 1]);
    }
  }

  /**
   * `tfb_ui_file_contains`: `buffers` is what the successive reads return; how they split the input does not
   * matter.
   */
  method FileContains(buffers: seq<Text>, needle: Text) returns (found: bool)
    ensures found == (needle != [] && Finds(needle, Flatten(buffers)))
  {
    if needle == [] {
      return false;
    }
    var matched, chunk := 0, 0;
    while chunk < |buffers|
      invariant 0 <= chunk <= |buffers| && matched < |needle|
      invariant matched == Scan(needle, 0, Flatten(buffers[..chunk]))
    {
      var buffer, index := buffers[chunk], 0;
      assert Flatten(buffers[..chunk]) + buffer[..0] == Flatten(buffers[..chunk]);
      while index < |buffer|
        invariant 0 <= index <= |buffer| && matched < |needle|
        invariant matched == Scan(needle, 0, Flatten(buffers[..chunk]) + buffer[..index])
      {
        var value := buffer[index];
        ghost var here := Flatten(buffers[..chunk]) + buffer[..index];
        assert Flatten(buffers[..chunk]) + buffer[..index + 1] == here + [value];
        assert (here + [value])[..|here|] == here;
        if value == needle[matched] {
          matched := matched + 1;
          if matched == |needle| {
            FlattenPrefix(buffers, chunk, index + 1);
            FullStays(needle, Flatten(buffers[..chunk]) + buffer[..index + 1], Flatten(buffers));
            return true;
          }
        } else {
          matched := if value == needle[0] then 1 else 0;
        }
        index := index + 1;
      }
      assert buffer[..index] == buffer;
      assert buffers[..chunk + 1][..chunk] == buffers[..chunk];
      chunk := chunk + 1;
    }
    assert buffers[..chunk] == buffers;
    found := false;
  }

  /** A full match is not lost by reading on. */
  lemma FullStays(needle: Text, prefix: Text, text: Text)
    requires 0 < |needle| && prefix <= text && Scan(needle, 0, prefix) == |needle|
    ensures Scan(needle, 0, text) == |needle|
  {
    assert text == prefix + text[|prefix|..];
    ScanAppend(needle, 0, prefix, text[|prefix|..]);
    FullAbsorbs(needle, text[|prefix|..]);
  }

  lemma {:induction false} FullAbsorbs(needle: Text, text: Text)
    requires 0 < |needle|
    ensures Scan(needle, |needle|, text) == |needle|
  {
    if text != [] {
      FullAbsorbs(needle, text[..|text| - 1]);
    }
  }

  lemma {:induction false} FlattenPrefix(chunks: seq<Text>, chunk: nat, index: nat)
    requires chunk < |chunks| && index <= |chunks[chunk]|
    ensures Flatten(chunks[..chunk]) + chunks[chunk][..index] <= Flatten(chunks)
  {
    var init := chunks[..|chunks| - 1];
    if chunk < |init| {
      FlattenPrefix(init, chunk, index);
      assert init[..chunk] == chunks[..chunk];
    }
  }

  // ---- soundness ----

  /** The matched bytes are the last bytes read. */
  predicate Ends(needle: Text, m: nat, text: Text) {
    m <= |needle| && m <= |text| && text[|text| - m..] == needle[..m]
  }

  lemma EndsSnoc(needle: Text, m: nat, text: Text, value: char)
    requires m < |needle| && Ends(needle, m, text)
    ensures Ends(needle, m + 1, text + [value]) <==> value == needle[m]
  {
    var all := text + [value];
    var tail := all[|all| - (m + 1)..];
    assert tail == text[|text| - m..] + [value];
    assert needle[..m + 1] == needle[..m] + [needle[m]];
    assert tail[m] == value;
  }

  lemma EndsInit(needle: Text, m: nat, text: Text, value: char)
    requires m > 0 && Ends(needle, m, text + [value])
    ensures Ends(needle, m - 1, text) && value == needle[m - 1]
  {
    var all := text + [value];
    var tail := all[|all| - m..];
    assert tail == text[|text| - (m - 1)..] + [value];
    assert needle[..m] == needle[..m - 1] + [needle[m - 1]];
    assert tail[..m - 1] == text[|text| - (m - 1)..];
    assert tail[m - 1] == value;
  }

  lemma EndsNothing(needle: Text, text: Text)
    ensures Ends(needle, 0, text)
  {}

  lemma OccursLonger(needle: Text, prefix: Text, text: Text, at: nat)
    requires prefix <= text && OccursAt(needle, prefix, at)
    ensures Occurs(needle, text)
  {
    assert text[at..at + |needle|] == prefix[at..at + |needle|];
    assert OccursAt(needle, text, at);
  }

  lemma EndsWhole(needle: Text, text: Text)
    requires Ends(needle, |needle|, text)
    ensures Occurs(needle, text)
  {
    assert text[|text| - |needle|..] == text[|text| - |needle|..|text| - |needle| + |needle|];
    assert OccursAt(needle, text, |text| - |needle|);
  }

  lemma {:induction false} ScanEnds(needle: Text, text: Text)
    requires 0 < |needle|
    ensures Scan(needle, 0, text) < |needle| ==> Ends(needle, Scan(needle, 0, text), text)
    ensures Scan(needle, 0, text) == |needle| ==> Occurs(needle, text)
  {
    hide Ends;
    if text == [] {
      assert Ends(needle, 0, text) by {
        EndsNothing(needle, text);
      }
    } else {
      var before, value := text[..|text| - 1], text[|text| - 1];
      assert text == before + [value];
      ScanEnds(needle, before);
      EndsNothing(needle, before);
      EndsNothing(needle, text);
      var m := Scan(needle, 0, before);
      if m == |needle| {
        var at: nat :| OccursAt(needle, before, at);
        OccursLonger(needle, before, text, at);
      } else {
        EndsSnoc(needle, m, before, value);
        EndsSnoc(needle, 0, before, value);
        if Scan(needle, 0, text) == |needle| {
          EndsWhole(needle, text);
        }
      }
    }
  }

  // ---- completeness ----

  /**
   * Whenever a prefix of the needle ends in a shorter prefix of it, both continue with the same byte. This is
   * the weakest condition under which restarting from the first byte alone loses nothing.
   */
  predicate Restartable(needle: Text) {
    forall m, k :: 1 <= k < m < |needle| && Ends(needle, k, needle[..m]) ==> needle[k] == needle[m]
  }

  /** Two suffixes of one text: the shorter is a suffix of the longer. */
  lemma Nested(needle: Text, k: nat, m: nat, text: Text)
    requires k <= m && Ends(needle, k, text) && Ends(needle, m, text)
    ensures Ends(needle, k, needle[..m])
  {
    assert text[|text| - m..][m - k..] == text[|text| - k..];
  }

  /** For such needles the matched count is always the longest possible one. */
  lemma {:induction false} ScanLongest(needle: Text, text: Text, k: nat)
    requires 0 < |needle| && Restartable(needle) && k < |needle|
    requires Scan(needle, 0, text) < |needle| && Ends(needle, k, text)
    ensures k <= Scan(needle, 0, text)
    decreases |text|
  {
    hide Restartable;
    if text != [] && k > 0 {
      var before, value := text[..|text| - 1], text[|text| - 1];
      assert text == before + [value];
      EndsInit(needle, k, before, value);
      var m := Scan(needle, 0, before);
      ScanLongest(needle, before, k - 1);
      if k - 1 < m && value != needle[m] && k > 1 {
        ScanEnds(needle, before);
        Nested(needle, k - 1, m, before);
        Continues(needle, m, k - 1);
      }
    }
  }

  lemma Continues(needle: Text, m: nat, k: nat)
    requires Restartable(needle) && 1 <= k < m < |needle| && Ends(needle, k, needle[..m])
    ensures needle[k] == needle[m]
  {}

  lemma {:induction false} FindsOccurrence(needle: Text, text: Text, at: nat)
    requires 0 < |needle| && Restartable(needle) && OccursAt(needle, text, at)
    ensures Finds(needle, text)
  {
    hide Restartable;
    var n := |needle|;
    var upTo := text[..at + n - 1];
    assert upTo + [text[at + n - 1]] == text[..at + n];
    assert needle[n - 1] == text[at..at + n][n - 1];
    assert upTo[|upTo| - (n - 1)..] == text[at..at + n][..n - 1];
    assert Ends(needle, n - 1, upTo);
    if Scan(needle, 0, upTo) < n {
      ScanLongest(needle, upTo, n - 1);
    } else {
      FullStays(needle, upTo, text[..at + n]);
    }
    assert text[..at + n][..|upTo|] == upTo;
    FullStays(needle, text[..at + n], text);
  }

  // ---- necessity ----

  lemma {:induction false} ScanPrefix(needle: Text, m: nat)
    requires m <= |needle| && 0 < |needle|
    ensures Scan(needle, 0, needle[..m]) == m
  {
    if m > 0 {
      ScanPrefix(needle, m - 1);
      assert needle[..m][..m - 1] == needle[..m - 1];
    }
  }

  lemma {:induction false} ScanSlow(needle: Text, matched: nat, text: Text)
    requires 0 < |needle| && matched <= |needle|
    ensures Scan(needle, matched, text) <= matched + |text|
  {
    if text != [] {
      ScanSlow(needle, matched, text[..|text| - 1]);
    }
  }

  /** A text that contains the needle and is answered "no". */
  function Missed(needle: Text, m: nat, k: nat): Text
    requires k <= m <= |needle|
  {
    needle[..m] + needle[k..]
  }

  lemma MissedOccurs(needle: Text, m: nat, k: nat)
    requires k <= m < |needle| && Ends(needle, k, needle[..m])
    ensures Occurs(needle, Missed(needle, m, k))
  {
    var text := Missed(needle, m, k);
    assert needle == needle[..k] + needle[k..];
    assert text[m - k..m - k + |needle|] == needle[..m][m - k..] + needle[k..];
    assert OccursAt(needle, text, m - k);
  }

  lemma MissedWitness(needle: Text, m: nat, k: nat)
    requires 1 <= k < m < |needle| && Ends(needle, k, needle[..m]) && needle[k] != needle[m]
    ensures Occurs(needle, Missed(needle, m, k)) && !Finds(needle, Missed(needle, m, k))
  {
    var text := Missed(needle, m, k);
    MissedOccurs(needle, m, k);
    hide Occurs, OccursAt, Ends;
    var head := needle[..m] + [needle[k]];
    assert text == head + needle[k + 1..];
    ScanPrefix(needle, m);
    assert head[..m] == needle[..m];
    ScanAppend(needle, 0, head, needle[k + 1..]);
    ScanSlow(needle, Scan(needle, 0, head), needle[k + 1..]);
  }

  /**
   * The matcher never reports a needle that is not there; it is exact on every text if and only if the
   * needle is restartable.
   */
  lemma ExactIff(needle: Text)
    requires 0 < |needle|
    ensures forall text :: Finds(needle, text) ==> Occurs(needle, text)
    ensures (forall text :: Finds(needle, text) <==> Occurs(needle, text)) <==> Restartable(needle)
  {
    hide Finds, Occurs, Restartable, Scan, OccursAt, Ends;
    forall text | Finds(needle, text)
      ensures Occurs(needle, text)
    {
      FoundOccurs(needle, text);
    }
    if Restartable(needle) {
      forall text | Occurs(needle, text)
        ensures Finds(needle, text)
      {
        OccursFound(needle, text);
      }
    } else {
      NotRestartable(needle);
    }
  }

  lemma FoundOccurs(needle: Text, text: Text)
    requires 0 < |needle| && Finds(needle, text)
    ensures Occurs(needle, text)
  {
    ScanEnds(needle, text);
  }

  lemma OccursFound(needle: Text, text: Text)
    requires 0 < |needle| && Restartable(needle) && Occurs(needle, text)
    ensures Finds(needle, text)
  {
    hide OccursAt, Restartable;
    var at: nat :| OccursAt(needle, text, at);
    FindsOccurrence(needle, text, at);
  }

  lemma NotRestartable(needle: Text)
    requires 0 < |needle| && !Restartable(needle)
    ensures exists text :: Occurs(needle, text) && !Finds(needle, text)
  {
    var m, k :| 1 <= k < m < |needle| && Ends(needle, k, needle[..m]) && needle[k] != needle[m];
    MissedWitness(needle, m, k);
  }

  // ---- the needles in use ----

  const SPACED_A: Text := "androidboot.slot_suffix = \"_a\""
  const SPACED_B: Text := "androidboot.slot_suffix = \"_b\""
  const QUOTED_A: Text := "androidboot.slot_suffix=\"_a\""
  const QUOTED_B: Text := "androidboot.slot_suffix=\"_b\""
  const CMDLINE_A: Text := "androidboot.slot_suffix=_a"
  const CMDLINE_B: Text := "androidboot.slot_suffix=_b"

  /** A first byte that does not recur before the last position makes a needle restartable. */
  lemma FirstOnce(needle: Text)
    requires 0 < |needle| && forall i :: 1 <= i < |needle| - 1 ==> needle[i] != needle[0]
    ensures Restartable(needle)
  {
    hide Ends;
    forall m, k | 1 <= k < m < |needle|
      ensures !Ends(needle, k, needle[..m])
    {
      if Ends(needle, k, needle[..m]) {
        EndsFirst(needle, k, m);
      }
    }
  }

  lemma EndsFirst(needle: Text, k: nat, m: nat)
    requires 1 <= k < m < |needle| && Ends(needle, k, needle[..m])
    ensures needle[m - k] == needle[0]
  {
    assert needle[..m][m - k..][0] == needle[m - k];
    assert needle[..k][0] == needle[0];
  }

  /** A needle whose first byte recurs at m - 1 and is followed differently there misses a text. */
  lemma RepeatsFirst(needle: Text, m: nat)
    requires 1 < m < |needle| && needle[m - 1] == needle[0] && needle[m] != needle[1]
    ensures !Restartable(needle)
    ensures Occurs(needle, Missed(needle, m, 1)) && !Finds(needle, Missed(needle, m, 1))
  {
    hide Restartable, Finds, Scan, Occurs;
    assert needle[..m][m - 1..] == needle[..1];
    MissedWitness(needle, m, 1);
    NotExact(needle, Missed(needle, m, 1));
  }

  /**
   * Of the six needles in use four are matched exactly. The two quoted slot A needles end in their own first
   * byte just before the closing quote, so a file that repeats the text right after "_" is missed.
   */
  lemma NeedlesInUse()
    ensures Restartable(CMDLINE_A) && Restartable(CMDLINE_B) && Restartable(SPACED_B) && Restartable(QUOTED_B)
    ensures !Restartable(SPACED_A) && !Restartable(QUOTED_A)
    ensures MissesText(SPACED_A, Missed(SPACED_A, |SPACED_A| - 1, 1))
    ensures MissesText(QUOTED_A, Missed(QUOTED_A, |QUOTED_A| - 1, 1))
  {
    hide Restartable, Finds, Scan, Occurs, Missed;
    FirstOnce(CMDLINE_A);
    FirstOnce(CMDLINE_B);
    FirstOnce(SPACED_B);
    FirstOnce(QUOTED_B);
    RepeatsFirst(SPACED_A, |SPACED_A| - 1);
    RepeatsFirst(QUOTED_A, |QUOTED_A| - 1);
  }

  /** The text contains the needle and is answered "no". */
  ghost predicate MissesText(needle: Text, text: Text)
    requires 0 < |needle|
  {
    Occurs(needle, text) && !Finds(needle, text)
  }

  lemma NotExact(needle: Text, text: Text)
    requires 0 < |needle| && Occurs(needle, text) && !Finds(needle, text)
    ensures !Restartable(needle)
  {
    hide Finds, Occurs, Restartable;
    if Restartable(needle) {
      OccursFound(needle, text);
    }
  }
}
