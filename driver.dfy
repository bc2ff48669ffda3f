/**
 * The assembler's main program after the file is read: every line goes
 * through `parseInstruction`, which appends to the global list of bit
 * strings, the first error stops the run, and on success the list is
 * written out one string per line after a leading empty line.
 */
module Driver {
  import opened Results
  import opened Text
  import opened Isa
  import opened Encoder

  /** The 0-based index of the line that raised, and what it raised. */
  datatype Failure = Failure(index: nat, error: Error)

  /** The outcome of `parseInstruction` on each line, in order. */
  function Outcomes(lines: seq<string>): (rs: seq<Result<string, Error>>)
    ensures |rs| == |lines|
  {
    if lines == [] then [] else [ParseLine(lines[0])] + Outcomes(lines[1..])
  }

  /** Outcome `i` is that of line `i`. */
  lemma {:induction false} OutcomeAt(lines: seq<string>, i: nat)
    requires i < |lines|
    ensures Outcomes(lines)[i] == ParseLine(lines[i])
    decreases i
  {
    if i > 0 {
      OutcomeAt(lines[1..], i - 1);
    }
  }

  /**
   * Running through line outcomes in order: the bit string of every line,
   * or the first line that fails.
   */
  function Collect(rs: seq<Result<string, Error>>): (r: Result<seq<string>, Failure>)
    ensures r.Ok? <==> forall i :: 0 <= i < |rs| ==> rs[i].Ok?
    ensures r.Ok? ==>
      |r.value| == |rs| && forall i :: 0 <= i < |rs| ==> r.value[i] == rs[i].value
    ensures r.Err? ==>
      r.error.index < |rs| && rs[r.error.index] == Err(r.error.error) &&
      forall i :: 0 <= i < r.error.index ==> rs[i].Ok?
    decreases |rs|
  {
    if rs == [] then Ok([])
    else
      var init := rs[..|rs| - 1];
      assert forall i :: 0 <= i < |init| ==> init[i] == rs[i];
      match Collect(init)
      case Err(f) => Err(f)
      case Ok(out) =>
        match rs[|rs| - 1]
        case Ok(bits) => Ok(out + [bits])
        case Err(e) => Err(Failure(|rs| - 1, e))
  }

  /** What assembling `lines` gives. */
  function Assembled(lines: seq<string>): Result<seq<string>, Failure> {
    Collect(Outcomes(lines))
  }

  /**
   * The strings a run appends: all of them when every outcome succeeds,
   * otherwise those of the outcomes before the first failure.
   */
  function Appended(rs: seq<Result<string, Error>>): seq<string> {
    match Collect(rs)
    case Ok(out) => out
    case Err(f) =>
      PrefixBeforeFailure(rs);
      Collect(rs[..f.index]).value
  }

  /**
   * The text of the `.bin` file for the bit strings `out`: a newline, then
   * each string followed by a newline.
   */
  function BinFile(out: seq<string>): string {
    Join([""] + out + [""], '\n')
  }

  /** The list of appended bit strings that `parseInstruction` updates. */
  class Assembler {
    var binFileLines: seq<string>

    constructor ()
      ensures binFileLines == []
    {
      binFileLines := [];
    }

    /**
     * `parseInstruction(ins, line)`: appends the line's bit string, or
     * raises and appends nothing: the lookup and the operand-count check
     * come before the append, and so does every `int()` the branch calls.
     */
    method ParseInstruction(ins: string) returns (err: Option<Error>)
      modifies this
      ensures ParseLine(ins).Ok? ==> err == None && binFileLines == old(binFileLines) + [ParseLine(ins).value]
      ensures ParseLine(ins).Err? ==> err == Some(ParseLine(ins).error) && binFileLines == old(binFileLines)
    {
      var words := Words(ins);
      var insType := Lower(words[0]);
      var m := Lookup(insType);
      if m.None? {
        return Some(UnknownInstruction(insType));
      }
      if ArgCount(m.value) != |words| - 1 {
        return Some(ArgumentCount(insType));
      }
      var bits := Encode(m.value, words[1..]);
      if bits.Err? {
        return Some(bits.error);
      }
      binFileLines := binFileLines + [bits.value];
      err := None;
    }

    /**
     * The loop over the input lines: each is parsed in turn and the first
     * error ends the loop, leaving the strings of the lines before it
     * appended.
     */
    method AssembleLines(insLines: seq<string>) returns (failure: Option<Failure>)
      modifies this
      ensures failure == if Assembled(insLines).Ok? then None else Some(Assembled(insLines).error)
      ensures binFileLines == old(binFileLines) + Appended(Outcomes(insLines))
    {
      ghost var rs := Outcomes(insLines);
      ghost var out: seq<string> := [];
      var i := 0;
      while i < |insLines|
        invariant 0 <= i <= |insLines|
        invariant Collect(rs[..i]) == Ok(out)
        invariant binFileLines == old(binFileLines) + out
      {
        OutcomeAt(insLines, i);
        var err := ParseInstruction(insLines[i]);
        CollectStep(rs, i, out);
        if err.Some? {
          failure := Some(Failure(i, err.value));
          return;
        }
        out := out + [rs[i].value];
        i := i + 1;
      }
      CollectAll(rs, out);
      failure := None;
    }

    /**
     * The write loop: a newline, then the first `lineCount` bit strings,
     * each followed by a newline.
     */
    method BinFileText(lineCount: nat) returns (text: string)
      requires lineCount <= |binFileLines|
      ensures text == BinFile(binFileLines[..lineCount])
    {
      text := "\n";
      assert BinFile(binFileLines[..0]) == "\n" by {
        assert [""] + binFileLines[..0] + [""] == ["", ""];
        assert ["", ""][1..] == [""];
      }
      var i := 0;
      while i < lineCount
        invariant 0 <= i <= lineCount
        invariant text == BinFile(binFileLines[..i])
      {
        BinFileSnoc(binFileLines[..i], binFileLines[i]);
        assert binFileLines[..i + 1] == binFileLines[..i] + [binFileLines[i]];
        text := text + binFileLines[i] + "\n";
        i := i + 1;
      }
    }
  }

  /**
   * The whole run on the lines of the input file: the `.bin` text when
   * every line assembles, or the first failure.
   */
  method AssembleFile(insLines: seq<string>) returns (report: Result<string, Failure>)
    ensures Assembled(insLines).Ok? ==> report == Ok(BinFile(Assembled(insLines).value))
    ensures Assembled(insLines).Err? ==> report == Err(Assembled(insLines).error)
  {
    var assembler := new Assembler();
    var failure := assembler.AssembleLines(insLines);
    if failure.Some? {
      report := Err(failure.value);
    } else {
      ghost var rs := Outcomes(insLines);
      assert Collect(rs).Ok?;
      assert assembler.binFileLines == Collect(rs).value;
      assert |Collect(rs).value| == |rs| == |insLines|;
      assert assembler.binFileLines[..|insLines|] == assembler.binFileLines;
      var text := assembler.BinFileText(|insLines|);
      report := Ok(text);
    }
  }

  // ---- Properties of a run ----

  /**
   * One more outcome: a success extends the collected strings, a failure
   * becomes the failure of the whole run, which has appended the strings
   * collected so far.
   */
  lemma CollectStep(rs: seq<Result<string, Error>>, i: nat, out: seq<string>)
    requires i < |rs| && Collect(rs[..i]) == Ok(out)
    ensures rs[i].Ok? ==> Collect(rs[..i + 1]) == Ok(out + [rs[i].value])
    ensures rs[i].Err? ==> Collect(rs) == Err(Failure(i, rs[i].error)) && Appended(rs) == out
  {
    assert rs[..i + 1][..i] == rs[..i];
    if rs[i].Err? {
      forall j | 0 <= j < i ensures rs[j].Ok? {
        assert rs[..i][j] == rs[j];
      }
      FirstFailureDecides(rs, i);
    }
  }

  /** Once every outcome is collected, the run appends all of them. */
  lemma CollectAll(rs: seq<Result<string, Error>>, out: seq<string>)
    requires Collect(rs[..|rs|]) == Ok(out)
    ensures Collect(rs) == Ok(out) && Appended(rs) == out
  {
    assert rs[..|rs|] == rs;
  }

  /** The first failing outcome decides the outcome of the whole run. */
  lemma FirstFailureDecides(rs: seq<Result<string, Error>>, k: nat)
    requires k < |rs| && rs[k].Err?
    requires forall i :: 0 <= i < k ==> rs[i].Ok?
    ensures Collect(rs) == Err(Failure(k, rs[k].error))
  {
    var r := Collect(rs);
    assert r.Err?;
    assert rs[r.error.index].Err?;
  }

  /** The strings collected from the outcomes before position `k`. */
  lemma CollectPrefix(rs: seq<Result<string, Error>>, k: nat)
    requires k <= |rs| && Collect(rs[..k]).Ok?
    ensures |Collect(rs[..k]).value| == k
    ensures forall i :: 0 <= i < k ==> Collect(rs[..k]).value[i] == rs[i].value
  {
    assert forall i :: 0 <= i < k ==> rs[..k][i] == rs[i];
  }

  /** The outcomes before the first failure all succeed. */
  lemma PrefixBeforeFailure(rs: seq<Result<string, Error>>)
    requires Collect(rs).Err?
    ensures Collect(rs).error.index <= |rs| && Collect(rs[..Collect(rs).error.index]).Ok?
  {
    var k := Collect(rs).error.index;
    assert forall i :: 0 <= i < k ==> rs[..k][i] == rs[i];
  }

  /**
   * The strings a run appends are the bit strings of its first lines, in
   * order: all of them, or those before the failing line.
   */
  lemma AppendedLines(lines: seq<string>)
    ensures |Appended(Outcomes(lines))| ==
      if Assembled(lines).Ok? then |lines| else Assembled(lines).error.index
    ensures forall i :: 0 <= i < |Appended(Outcomes(lines))| ==>
      ParseLine(lines[i]) == Ok(Appended(Outcomes(lines))[i])
  {
    var rs := Outcomes(lines);
    var app := Appended(rs);
    if Collect(rs).Err? {
      CollectPrefix(rs, Collect(rs).error.index);
    }
    forall i | 0 <= i < |app| ensures ParseLine(lines[i]) == Ok(app[i]) {
      OutcomeAt(lines, i);
    }
  }

  /**
   * A run succeeds exactly when every line parses, and then gives each
   * line's bit string in order; otherwise it reports the first line that
   * fails, every line before which parses.
   */
  lemma AssembledMeaning(lines: seq<string>)
    ensures Assembled(lines).Ok? <==> forall i :: 0 <= i < |lines| ==> ParseLine(lines[i]).Ok?
    ensures Assembled(lines).Ok? ==>
      |Assembled(lines).value| == |lines| &&
      forall i :: 0 <= i < |lines| ==> ParseLine(lines[i]) == Ok(Assembled(lines).value[i])
    ensures Assembled(lines).Err? ==>
      Assembled(lines).error.index < |lines| &&
      ParseLine(lines[Assembled(lines).error.index]) == Err(Assembled(lines).error.error) &&
      forall i :: 0 <= i < Assembled(lines).error.index ==> ParseLine(lines[i]).Ok?
  {
    var rs := Outcomes(lines);
    var r := Collect(rs);
    if r.Ok? {
      forall i | 0 <= i < |lines| ensures ParseLine(lines[i]) == Ok(r.value[i]) {
        OutcomeAt(lines, i);
      }
    } else {
      var k := r.error.index;
      OutcomeAt(lines, k);
      forall i | 0 <= i < k ensures ParseLine(lines[i]).Ok? {
        OutcomeAt(lines, i);
      }
      assert !ParseLine(lines[k]).Ok?;
    }
  }

  /** Writing one more bit string adds it and a newline to the text. */
  lemma BinFileSnoc(out: seq<string>, bits: string)
    ensures BinFile(out + [bits]) == BinFile(out) + bits + "\n"
  {
    var p := [""] + out;
    JoinSnoc(p, "", '\n');
    JoinSnoc(p, bits, '\n');
    JoinSnoc(p + [bits], "", '\n');
    assert [""] + (out + [bits]) + [""] == (p + [bits]) + [""];
    assert [""] + out + [""] == p + [""];
  }

  /**
   * Reading the `.bin` text back line by line gives the leading empty
   * line, the bit strings in order, and nothing after the last newline.
   */
  lemma BinFileLines(out: seq<string>)
    requires forall k :: 0 <= k < |out| ==> '\n' !in out[k]
    ensures Split(BinFile(out), '\n') == [""] + out + [""]
  {
    var parts := [""] + out + [""];
    forall k | 0 <= k < |parts| ensures '\n' !in parts[k] {
      if 0 < k < |parts| - 1 {
        assert parts[k] == out[k - 1];
      }
    }
    SplitJoin(parts, '\n');
  }

  /** The bit strings of a successful run hold no newline. */
  lemma AssembledLinesHaveNoNewline(lines: seq<string>)
    requires Assembled(lines).Ok?
    ensures forall k :: 0 <= k < |lines| ==> '\n' !in Assembled(lines).value[k]
  {
    AssembledMeaning(lines);
    forall k | 0 <= k < |lines| ensures '\n' !in Assembled(lines).value[k] {
      ParsedLineChars(lines[k], Assembled(lines).value[k]);
    }
  }

  /** Every character a parsed line produces is a digit, `-` or `_`. */
  lemma ParsedLineChars(ins: string, bits: string)
    requires ParseLine(ins) == Ok(bits)
    ensures forall c :: c in bits ==> c == '0' || c == '1' || c == '-' || c == '_'
  {
    ParsedLine(ins);
    var words := Words(ins);
    EncodeChars(Lookup(Lower(words[0])).value, words[1..]);
  }

  /**
   * The `.bin` file of a successful run, read back line by line, is a
   * leading empty line, the bit strings of the input lines in order, and
   * nothing after the last newline.
   */
  lemma FileReadsBack(lines: seq<string>)
    requires Assembled(lines).Ok?
    ensures Split(BinFile(Assembled(lines).value), '\n') == [""] + Assembled(lines).value + [""]
  {
    AssembledLinesHaveNoNewline(lines);
    BinFileLines(Assembled(lines).value);
  }
}
