/**
 * The names the flashcard maker derives: the image file written for the i-th question
 * and the i-th answer, and the deck name derived from a PDF file name.
 */
module Naming {
  import opened Text

  datatype Option<T> = None | Some(value: T)

  const QuestionImagePrefix: string := "question"
  const AnswerImagePrefix: string := "answer"
  const ImageExtension: string := ".png"
  const PdfExtension: string := ".pdf"

  predicate IsDigit(c: char) {
    '0' <= c <= '9'
  }

  predicate AllDigits(s: string) {
    forall k :: 0 <= k < |s| ==> IsDigit(s[k])
  }

  function DigitChar(d: nat): char
    requires d < 10
  {
    ('0' as int + d) as char
  }

  /** `str(n)` for a non-negative integer: its decimal digits, with no leading zero. */
  function Decimal(n: nat): (r: string)
    ensures |r| >= 1 && AllDigits(r)
    ensures r[0] == '0' ==> n == 0
  {
    if n < 10 then [DigitChar(n)] else Decimal(n / 10) + [DigitChar(n % 10)]
  }

  /** The number a string of decimal digits stands for, as `int(s)` reads it. */
  function DecimalValue(s: string): nat
    requires AllDigits(s)
  {
    if s == [] then 0 else 10 * DecimalValue(s[..|s| - 1]) + (s[|s| - 1] as int - '0' as int)
  }

  /** Reading back the digits of `n` gives `n`. */
  lemma {:induction false} DecimalRoundTrip(n: nat)
    ensures DecimalValue(Decimal(n)) == n
  {
    if n >= 10 {
      var r := Decimal(n);
      assert r[..|r| - 1] == Decimal(n / 10);
      DecimalRoundTrip(n / 10);
    }
  }

  /** The image file name `f"{prefix}_{index}.png"`. */
  function ImageName(prefix: string, index: nat): string {
    prefix + "_" + Decimal(index) + ImageExtension
  }

  /** The names of the two images of the card with this index: the question's and the answer's. */
  function CardImageNames(index: nat): (string, string) {
    (ImageName(QuestionImagePrefix, index), ImageName(AnswerImagePrefix, index))
  }

  /** The index an image name carries for this prefix, if the name has the image name format. */
  function ImageIndex(prefix: string, name: string): Option<nat> {
    var head := prefix + "_";
    if |name| > |head| + |ImageExtension| && StartsWith(name, head) && EndsWith(name, ImageExtension) then
      var digits := name[|head|..|name| - |ImageExtension|];
      if AllDigits(digits) then Some(DecimalValue(digits)) else None
    else
      None
  }

  /** The index can be read back from an image name. */
  lemma ImageNameRoundTrip(prefix: string, index: nat)
    ensures ImageIndex(prefix, ImageName(prefix, index)) == Some(index)
  {
    var name := ImageName(prefix, index);
    var head := prefix + "_";
    assert name == head + Decimal(index) + ImageExtension;
    assert name[..|head|] == head;
    assert name[|name| - |ImageExtension|..] == ImageExtension;
    assert name[|head|..|name| - |ImageExtension|] == Decimal(index);
    DecimalRoundTrip(index);
  }

  /** Two images with the same prefix and different indices never share a name. */
  lemma ImageNamesDistinct(prefix: string, i: nat, j: nat)
    requires i != j
    ensures ImageName(prefix, i) != ImageName(prefix, j)
  {
    ImageNameRoundTrip(prefix, i);
    ImageNameRoundTrip(prefix, j);
  }

  /**
   * The question and the answer image of one card differ only in their prefix: what
   * follows the prefix is the same, both carry the card's index, and no question image
   * name is ever an answer image name.
   */
  lemma CardImagesDifferOnlyInPrefix(index: nat, other: nat)
    ensures var (question, answer) := CardImageNames(index);
            && question[|QuestionImagePrefix|..] == answer[|AnswerImagePrefix|..]
            && ImageIndex(QuestionImagePrefix, question) == ImageIndex(AnswerImagePrefix, answer) == Some(index)
            && question != ImageName(AnswerImagePrefix, other)
  {
    var (question, answer) := CardImageNames(index);
    var suffix := "_" + Decimal(index) + ImageExtension;
    assert question[|QuestionImagePrefix|..] == suffix by {
      assert question == QuestionImagePrefix + suffix;
    }
    assert answer[|AnswerImagePrefix|..] == suffix by {
      assert answer == AnswerImagePrefix + suffix;
    }
    ImageNameRoundTrip(QuestionImagePrefix, index);
    ImageNameRoundTrip(AnswerImagePrefix, index);
    assert question[0] != ImageName(AnswerImagePrefix, other)[0];
  }

  /** `fileName.endswith(".pdf")`: the filter that selects the files to turn into decks. */
  predicate IsPdfFile(fileName: string) {
    EndsWith(fileName, PdfExtension)
  }

  /**
   * `fileName.replace(".pdf", "")`: the deck name. Every occurrence of ".pdf" is removed,
   * scanning from the left without overlaps, not only the one that ends the name.
   */
  function DeckName(fileName: string): (deck: string)
    ensures |deck| <= |fileName|
  {
    if StartsWith(fileName, PdfExtension) then DeckName(fileName[|PdfExtension|..])
    else if fileName == [] then []
    else [fileName[0]] + DeckName(fileName[1..])
  }

  /** The deck name keeps a file name exactly when the name has no ".pdf" in it; otherwise it is shorter by at least 4. */
  lemma {:induction false} DeckNameKeepsOnlyNamesWithoutPdf(fileName: string)
    ensures DeckName(fileName) == fileName <==> !Contains(fileName, PdfExtension)
    ensures Contains(fileName, PdfExtension) ==> |DeckName(fileName)| <= |fileName| - |PdfExtension|
  {
    if !StartsWith(fileName, PdfExtension) && fileName != [] {
      DeckNameKeepsOnlyNamesWithoutPdf(fileName[1..]);
      assert Contains(fileName, PdfExtension) == Contains(fileName[1..], PdfExtension);
    }
  }

  /** An occurrence of ".pdf" that starts a name has no other occurrence overlapping it. */
  lemma NoOccurrenceAcrossPdf(before: string, after: string)
    requires !Contains(before, PdfExtension)
    ensures StartsWith(before + PdfExtension + after, PdfExtension) <==> before == []
  {
    var s := before + PdfExtension + after;
    if before != [] {
      if |before| >= |PdfExtension| {
        assert s[..|PdfExtension|] == before[..|PdfExtension|];
        assert !StartsWith(before, PdfExtension);
      } else {
        assert s[|before|] == '.' != PdfExtension[|before|];
      }
    }
  }

  /** Replacing works left to right: the text before the first ".pdf" is kept, that ".pdf" is dropped, and the rest is treated alike. */
  lemma {:induction false} DeckNameRemovesEachOccurrence(before: string, after: string)
    requires !Contains(before, PdfExtension)
    ensures DeckName(before + PdfExtension + after) == before + DeckName(after)
  {
    var s := before + PdfExtension + after;
    NoOccurrenceAcrossPdf(before, after);
    if before == [] {
      assert s[|PdfExtension|..] == after;
    } else {
      assert DeckName(s) == [before[0]] + DeckName(before[1..] + PdfExtension + after) by {
        assert s[1..] == before[1..] + PdfExtension + after;
      }
      assert !Contains(before[1..], PdfExtension);
      DeckNameRemovesEachOccurrence(before[1..], after);
      assert [before[0]] + (before[1..] + DeckName(after)) == before + DeckName(after);
    }
  }

  /** For a PDF file whose name mentions ".pdf" only at its end, the deck name is the name without the extension. */
  lemma DeckNameDropsExtension(fileName: string)
    requires IsPdfFile(fileName) && !Contains(fileName[..|fileName| - |PdfExtension|], PdfExtension)
    ensures DeckName(fileName) == fileName[..|fileName| - |PdfExtension|]
  {
    var stem := fileName[..|fileName| - |PdfExtension|];
    assert fileName == stem + PdfExtension + [];
    DeckNameRemovesEachOccurrence(stem, []);
  }

  /** ".pdf" in the middle of a name is removed too, not only the extension: "notes.pdf.v2.pdf" gives "notes.v2". */
  lemma DeckNameRemovesInnerPdf(stem: string, version: string)
    requires !Contains(stem, PdfExtension) && !Contains(version, PdfExtension)
    ensures DeckName(stem + PdfExtension + version + PdfExtension) == stem + version
  {
    var tail := version + PdfExtension + [];
    assert DeckName(tail) == version by {
      DeckNameRemovesEachOccurrence(version, []);
    }
    assert stem + PdfExtension + version + PdfExtension == stem + PdfExtension + tail;
    DeckNameRemovesEachOccurrence(stem, tail);
  }

  /**
   * Removing ".pdf" can bring together a name that again ends in ".pdf": "a..pdfpdf"
   * (stem "a") gives "a.pdf", which the PDF filter would select again.
   */
  lemma DeckNameMayEndInPdf(stem: string)
    requires !Contains(stem + ".", PdfExtension)
    ensures DeckName(stem + "." + PdfExtension + "pdf") == stem + PdfExtension
    ensures IsPdfFile(DeckName(stem + "." + PdfExtension + "pdf"))
  {
    assert DeckName("pdf") == "pdf" by {
      MissingCharNotContained("pdf", PdfExtension, '.');
      DeckNameKeepsOnlyNamesWithoutPdf("pdf");
    }
    DeckNameRemovesEachOccurrence(stem + ".", "pdf");
    assert stem + "." + "pdf" == stem + PdfExtension;
    assert (stem + PdfExtension)[|stem|..] == PdfExtension;
  }
}
