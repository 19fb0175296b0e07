/** The raw-keystroke yes/no prompt. In raw mode every `data` event brings a
    chunk (usually one key, several when keys are pasted). A chunk that
    lower-cases to "y" or "n" settles the prompt and detaches the handler;
    the Ctrl+C chunk ends the process; every other chunk is ignored and the
    prompt keeps waiting. */
module Confirm {
  import opened Text

  /** The chunk raw mode delivers for Ctrl+C (U+0003). */
  const CtrlC: string := "\U{0003}"

  datatype Verdict = Answered(yes: bool) | Interrupted | Waiting

  /** `key.toLowerCase() === "y"`. */
  predicate IsYes(key: string) {
    Lower(key) == "y"
  }

  /** `key.toLowerCase() === "n"`. */
  predicate IsNo(key: string) {
    Lower(key) == "n"
  }

  /** A chunk that ends the wait one way or another. */
  predicate Decisive(key: string) {
    IsYes(key) || IsNo(key) || key == CtrlC
  }

  /** Chunk `i` is the first decisive one. */
  ghost predicate FirstDecisiveAt(keys: seq<string>, i: int) {
    0 <= i < |keys| && Decisive(keys[i]) && forall j :: 0 <= j < i ==> !Decisive(keys[j])
  }

  /** What a decisive chunk decides. */
  function VerdictOf(key: string): Verdict
    requires Decisive(key)
  {
    if IsYes(key) then Answered(true)
    else if IsNo(key) then Answered(false)
    else Interrupted
  }

  /** The handler run over the chunks in arrival order. The yes/no test comes
      before the Ctrl+C test, as in the handler. */
  function AwaitYesNo(keys: seq<string>): (v: Verdict)
    ensures v == Waiting <==> forall i :: 0 <= i < |keys| ==> !Decisive(keys[i])
    ensures v != Waiting ==> exists i :: FirstDecisiveAt(keys, i) && v == VerdictOf(keys[i])
  {
    if |keys| == 0 then Waiting
    else if IsYes(keys[0]) then Answered(true)
    else if IsNo(keys[0]) then Answered(false)
    else if keys[0] == CtrlC then Interrupted
    else
      ShiftFirstDecisive(keys);
      AwaitYesNo(keys[1..])
  }

  lemma ShiftFirstDecisive(keys: seq<string>)
    requires |keys| > 0 && !Decisive(keys[0])
    ensures forall i :: FirstDecisiveAt(keys[1..], i) ==> FirstDecisiveAt(keys, i + 1) && keys[i + 1] == keys[1..][i]
    ensures (forall i :: 0 <= i < |keys| ==> !Decisive(keys[i])) <==> (forall i :: 0 <= i < |keys[1..]| ==> !Decisive(keys[1..][i]))
  {
    forall i | FirstDecisiveAt(keys[1..], i) ensures FirstDecisiveAt(keys, i + 1) {
      forall j | 0 <= j < i + 1 ensures !Decisive(keys[j]) {
        if j > 0 { assert keys[j] == keys[1..][j - 1]; }
      }
    }
    if forall i :: 0 <= i < |keys[1..]| ==> !Decisive(keys[1..][i]) {
      forall i | 0 <= i < |keys| ensures !Decisive(keys[i]) {
        if i > 0 { assert keys[i] == keys[1..][i - 1]; }
      }
    }
  }

  /** Only `y` and `Y` lower-case to "y"; only `n` and `N` to "n". */
  lemma YesNoKeys(key: string)
    ensures IsYes(key) <==> key == "y" || key == "Y"
    ensures IsNo(key) <==> key == "n" || key == "N"
  {
    if IsYes(key) || IsNo(key) {
      assert |key| == 1;
      assert Lower(key)[0] == LowerChar(key[0]);
    }
  }

  /** Any run of ignored chunks followed by `y` resolves to yes, at that `y`. */
  lemma {:induction false} IgnoredThenYes(junk: seq<string>, rest: seq<string>)
    requires forall i :: 0 <= i < |junk| ==> !Decisive(junk[i])
    ensures AwaitYesNo(junk + ["y"] + rest) == Answered(true)
  {
    var keys := junk + ["y"] + rest;
    assert forall j :: 0 <= j < |junk| ==> keys[j] == junk[j];
    assert keys[|junk|] == "y" && IsYes(keys[|junk|]);
    var v := AwaitYesNo(keys);
    var i :| FirstDecisiveAt(keys, i) && v == VerdictOf(keys[i]);
    assert i == |junk|;
  }

  /** A pasted multi-key chunk such as "yes" is ignored. */
  lemma PastedWordIgnored()
    ensures AwaitYesNo(["yes"]) == Waiting
  {
    assert !IsYes("yes") && !IsNo("yes");
  }

  /** Ctrl+C before any yes/no interrupts; a yes/no before Ctrl+C wins. */
  lemma InterruptOrder()
    ensures AwaitYesNo([CtrlC, "y"]) == Interrupted
    ensures AwaitYesNo(["N", CtrlC]) == Answered(false)
  {
    YesNoKeys(CtrlC);
    YesNoKeys("N");
  }
}
