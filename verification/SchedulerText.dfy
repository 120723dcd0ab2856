/** Bounding published output by the bytes its JSON form takes. */
module SchedulerText {
  import opened SchedulerWire
  import opened JsonText
  import SchedulerValidate

  lemma {:induction false} EscapedLenMonotone(text: string, k: nat)
    requires k <= |text|
    ensures TextEscapedLen(text[..k]) <= TextEscapedLen(text)
    decreases |text| - k
  {
    if k == |text| {
      assert text[..k] == text;
    } else {
      EscapedLenMonotone(text, k + 1);
      assert text[..k + 1][..k] == text[..k];
    }
  }

  /** `kept` is the longest prefix of `text` whose escaped form fits the budget. */
  ghost predicate LongestFitting(kept: string, text: string, budget: nat) {
    && kept <= text
    && TextEscapedLen(kept) <= budget
    && forall k :: |kept| < k <= |text| ==> TextEscapedLen(text[..k]) > budget
  }

  /**
   * Keep the longest prefix whose escaped form fits `budget`. A first character that alone exceeds the
   * budget is kept all the same, so that a stream with output is never reported as empty. The flag tells
   * whether something was dropped, except for exactly that case when the character is the whole text.
   */
  method TruncateToEscapedBudget(text: string, budget: nat) returns (kept: string, truncated: bool)
    ensures truncated <==> TextEscapedLen(text) > budget
    ensures text == "" || EscapedLen(text[0]) <= budget ==> LongestFitting(kept, text, budget)
    ensures text != "" && EscapedLen(text[0]) > budget ==> kept == text[..1]
    ensures (truncated <==> kept != text) <==> !(|text| == 1 && EscapedLen(text[0]) > budget)
  {
    var used, end := 0, 0;
    for offset := 0 to |text|
      invariant end == offset
      invariant used == TextEscapedLen(text[..offset]) <= budget
    {
      var cost := EscapedLen(text[offset]);
      assert text[..offset + 1][..offset] == text[..offset];
      if used + cost > budget {
        forall k | offset < k <= |text| ensures TextEscapedLen(text[..k]) > budget {
          EscapedLenMonotone(text[..k], offset + 1);
          assert text[..k][..offset + 1] == text[..offset + 1];
        }
        assert text[..|text|] == text;
        if end == 0 {
          assert text[..1][..0] == [];
          return text[..1], true;
        }
        assert EscapedLen(text[0]) <= budget by {
          EscapedLenMonotone(text[..offset], 1);
          assert text[..offset][..1] == text[..1] && text[..1][..0] == [];
        }
        return text[..end], true;
      }
      used := used + cost;
      end := offset + 1;
    }
    assert text[..|text|] == text;
    if text != "" {
      EscapedLenMonotone(text, 1);
      assert text[..1][..0] == [];
    }
    return text, false;
  }

  /** From a budget of six escaped bytes on, no character is over-long, so the flag means that something was dropped. */
  lemma SixBytesSuffice(text: string, budget: nat, kept: string)
    requires budget >= 6 && LongestFitting(kept, text, budget)
    ensures text == "" || EscapedLen(text[0]) <= budget
    ensures kept != text <==> TextEscapedLen(text) > budget
  {
    assert text[..|text|] == text;
  }

  /** Published text for a captured stream, given its lossy UTF-8 conversion. */
  method OutputTextFromBytes(lossy: string, alreadyRawTruncated: bool) returns (text: string, truncated: bool)
    ensures LongestFitting(text, lossy, MAX_OUTPUT_TEXT_BYTES)
    ensures truncated <==> alreadyRawTruncated || text != lossy
    ensures forall log, field :: SchedulerValidate.CheckOutput(log, field, Output(text, truncated)) == log
  {
    var textTruncated;
    text, textTruncated := TruncateToEscapedBudget(lossy, MAX_OUTPUT_TEXT_BYTES);
    SixBytesSuffice(lossy, MAX_OUTPUT_TEXT_BYTES, text);
    truncated := alreadyRawTruncated || textTruncated;
  }
}
