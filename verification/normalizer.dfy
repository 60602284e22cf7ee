/**
 The page text normaliser `clean_text` of the ingestion script: split the page
 on newlines, strip every line, drop lines shorter than five characters, drop
 lines whose lower-case form was already kept, and join what is left with one space.
 */
module Normalizer {
  import opened Text
  import opened Seqs
  import opened FirstSeen

  /** Stripped lines shorter than this are treated as OCR junk. */
  const MinLineLength: nat := 5

  /** A stripped line is kept only when it is not shorter than five characters. */
  predicate IsLongLine(line: string): (long: bool)
    ensures !long <==> |line| < 5
  {
    |line| >= MinLineLength
  }

  /** The page split on `"\n"`, each line stripped. */
  function StrippedLines(text: string): (lines: seq<string>)
    ensures |lines| >= 1
    ensures forall k :: 0 <= k < |lines| ==> IsStripped(lines[k]) && '\n' !in lines[k]
  {
    var raw := Split(text, '\n');
    var lines := Map(raw, Strip);
    forall k | 0 <= k < |lines| ensures '\n' !in lines[k] {
      if '\n' in lines[k] {
        TrimmedKeepsChars(raw[k], lines[k], '\n');
      }
    }
    lines
  }

  /**
   The lines `clean_text` appends to `cleaned_lines`: each long, stripped and
   newline-free, with no two equal once lower-cased, and with one of them for
   every lower-case form of a long stripped line.
   */
  function KeptLines(text: string): (kept: seq<string>)
    ensures forall k :: 0 <= k < |kept| ==> |kept[k]| >= MinLineLength
    ensures forall k :: 0 <= k < |kept| ==> IsStripped(kept[k]) && '\n' !in kept[k]
    ensures forall i, j :: 0 <= i < j < |kept| ==> Lower(kept[i]) != Lower(kept[j])
    ensures Keys(kept, Lower) == WantedKeys(StrippedLines(text), IsLongLine, Lower)
  {
    var lines := StrippedLines(text);
    var kept := KeepFirst(lines, IsLongLine, Lower, {});
    KeepFirstIsSubseq(lines, IsLongLine, Lower, {});
    SubseqMembers(kept, lines);
    forall k | 0 <= k < |kept| ensures IsStripped(kept[k]) && '\n' !in kept[k] {
      assert kept[k] in lines;
    }
    kept
  }

  /**
   `clean_text(text)`: the kept lines joined by single spaces. The result has
   no newline and no surrounding whitespace, and is empty or at least five long.
   */
  function CleanText(text: string): (r: string)
    ensures '\n' !in r
    ensures IsStripped(r)
    ensures r == "" || |r| >= MinLineLength
    ensures r == "" <==> KeptLines(text) == []
  {
    var kept := KeptLines(text);
    JoinAvoids(kept, " ", '\n');
    JoinStripped(kept);
    Join(kept, " ")
  }

  /** The loop of `clean_text` as written, with its `seen` set, computes `CleanText`. */
  method CleanTextByLoop(text: string) returns (out: string)
    ensures out == CleanText(text)
  {
    var lines := Split(text, '\n');
    ghost var stripped := StrippedLines(text);
    var cleaned: seq<string> := [];
    var seen: set<string> := {};
    var i: nat := 0;
    while i < |lines|
      invariant i <= |lines| == |stripped|
      invariant cleaned == KeepFirst(stripped[..i], IsLongLine, Lower, {})
      invariant seen == Keys(cleaned, Lower)
    {
      var line := Strip(lines[i]);
      assert line == stripped[i];
      KeepFirstPrefixStep(stripped, i, IsLongLine, Lower, cleaned, seen);
      if |line| >= MinLineLength {
        var lower := Lower(line);
        if lower !in seen {
          seen := seen + {lower};
          cleaned := cleaned + [line];
        }
      }
      i := i + 1;
    }
    assert stripped[..|stripped|] == stripped;
    out := Join(cleaned, " ");
  }

  /** The lines kept are exactly the first long occurrence of each lower-case form, in input order. */
  lemma KeptLinesAreFirstOccurrences(text: string)
    ensures KeptLines(text)
         == FirstWanted(StrippedLines(text), IsLongLine, Lower, {}, |StrippedLines(text)|)
  {
    KeepFirstIsFirstWanted(StrippedLines(text), IsLongLine, Lower, {});
  }

  /** The lines kept are an order-preserving subsequence of the stripped input lines, casing untouched. */
  lemma KeptLinesInOrder(text: string)
    ensures IsSubseq(KeptLines(text), StrippedLines(text))
  {
    KeepFirstIsSubseq(StrippedLines(text), IsLongLine, Lower, {});
  }

  /** Every long stripped input line is represented by a kept line with the same lower-case form. */
  lemma KeptLinesComplete(text: string, i: nat)
    requires i < |StrippedLines(text)| && IsLongLine(StrippedLines(text)[i])
    ensures exists k :: 0 <= k < |KeptLines(text)| && Lower(KeptLines(text)[k]) == Lower(StrippedLines(text)[i])
  {
    var lines := StrippedLines(text);
    var kept := KeptLines(text);
    assert Lower(lines[i]) in WantedKeys(lines, IsLongLine, Lower);
    assert Lower(lines[i]) in Keys(kept, Lower);
    var k :| 0 <= k < |kept| && Lower(kept[k]) == Lower(lines[i]);
  }

  /** The page cleans to `""` exactly when every stripped line is shorter than five characters. */
  lemma CleanTextEmptyIff(text: string)
    ensures CleanText(text) == "" <==> forall k :: 0 <= k < |StrippedLines(text)| ==> !IsLongLine(StrippedLines(text)[k])
  {
    var lines := StrippedLines(text);
    var kept := KeptLines(text);
    if exists k :: 0 <= k < |lines| && IsLongLine(lines[k]) {
      var k :| 0 <= k < |lines| && IsLongLine(lines[k]);
      KeptLinesComplete(text, k);
    }
  }

  /** An empty page cleans to the empty string. */
  lemma CleanTextOfEmpty()
    ensures CleanText("") == ""
  {
    assert StrippedLines("") == [""];
    CleanTextEmptyIff("");
  }

  /** A single stripped line of at least five characters is its own cleaning. */
  lemma CleanTextOfOneLine(line: string)
    requires '\n' !in line && IsStripped(line) && |line| >= MinLineLength
    ensures CleanText(line) == line
  {
    assert Split(line, '\n') == [line];
    assert StrippedLines(line) == [line];
    assert KeptLines(line) == [line];
  }

  /** Cleaning is idempotent: a cleaned page is left as it is. */
  lemma CleanTextIdempotent(text: string)
    ensures CleanText(CleanText(text)) == CleanText(text)
  {
    var once := CleanText(text);
    if once == "" {
      CleanTextOfEmpty();
    } else {
      CleanTextOfOneLine(once);
    }
  }

  /**
   De-duplication works on whole lines: a one-line page that repeats a sentence
   is kept as it is, original casing included.
   */
  lemma CleanTextKeepsRepeatedSentence()
    ensures CleanText("Read it. Read it.") == "Read it. Read it."
  {
    var page := "Read it. Read it.";
    assert page[0] == 'R' && page[|page| - 1] == '.';
    forall i | 0 <= i < |page| ensures page[i] != '\n' {
    }
    CleanTextOfOneLine(page);
  }

  /** A page holding only a junk fragment cleans to the empty string. */
  lemma CleanTextOfJunk()
    ensures CleanText("X") == ""
  {
    assert Split("X", '\n') == ["X"];
    CleanTextEmptyIff("X");
  }
}
