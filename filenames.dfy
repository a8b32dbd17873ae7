/**
 * The name of the generated document: the source image's name cut at its
 * first '.', followed by ".pdf" (`selectedFile.name.split('.')[0] + '.pdf'`).
 * `String.prototype.split` with a one-character separator is modelled in full,
 * so that the first piece can be characterised and the split undone by a join.
 */
module FileNames {

  const Dot: char := '.'
  const PdfExtension: string := ".pdf"

  /** `s.split(sep)`: the maximal runs of `s` between occurrences of `sep`.
      The empty string splits into one empty piece, as in JavaScript. */
  function Split(s: string, sep: char): (parts: seq<string>)
    ensures |parts| >= 1
    decreases |s|
  {
    if s == [] then [[]]
    else
      var rest := Split(s[1..], sep);
      if s[0] == sep then [[]] + rest
      else [[s[0]] + rest[0]] + rest[1..]
  }

  /** `parts.join(sep)`: the inverse of Split. */
  function Join(parts: seq<string>, sep: char): string
    requires |parts| >= 1
    decreases |parts|
  {
    if |parts| == 1 then parts[0]
    else parts[0] + [sep] + Join(parts[1..], sep)
  }

  /** Joining the pieces of a split with the same separator gives back the string. */
  lemma {:induction false} JoinSplit(s: string, sep: char)
    ensures Join(Split(s, sep), sep) == s
    decreases |s|
  {
    if s != [] {
      var rest := Split(s[1..], sep);
      JoinSplit(s[1..], sep);
      if s[0] == sep {
        assert ([[]] + rest)[1..] == rest;
        assert s == [sep] + s[1..];
      } else if |rest| == 1 {
        assert s == [s[0]] + s[1..];
      } else {
        var parts := [[s[0]] + rest[0]] + rest[1..];
        assert parts[1..] == rest[1..];
        assert Join(rest, sep) == rest[0] + [sep] + Join(rest[1..], sep);
        assert s == [s[0]] + s[1..];
      }
    }
  }

  /** No piece of a split contains the separator. */
  lemma {:induction false} SplitPiecesHaveNoSeparator(s: string, sep: char, k: nat)
    requires k < |Split(s, sep)|
    ensures sep !in Split(s, sep)[k]
    decreases |s|
  {
    if s != [] {
      var rest := Split(s[1..], sep);
      if s[0] == sep {
        if k > 0 { SplitPiecesHaveNoSeparator(s[1..], sep, k - 1); }
      } else if k == 0 {
        SplitPiecesHaveNoSeparator(s[1..], sep, 0);
      } else {
        SplitPiecesHaveNoSeparator(s[1..], sep, k);
      }
    }
  }

  /** The first piece of a split is the longest prefix free of the separator:
      it is a prefix, it holds no separator, and it either is the whole string
      or is followed by a separator. */
  lemma {:induction false} FirstPieceIsPrefixBeforeSeparator(s: string, sep: char)
    ensures var p := Split(s, sep)[0];
      |p| <= |s| && p == s[..|p|] && sep !in p && (|p| == |s| || s[|p|] == sep)
    decreases |s|
  {
    if s != [] && s[0] != sep {
      FirstPieceIsPrefixBeforeSeparator(s[1..], sep);
      var q := Split(s[1..], sep)[0];
      assert Split(s, sep)[0] == [s[0]] + q;
      assert s[..|q| + 1] == [s[0]] + s[1..][..|q|];
    }
  }

  /** `name.split('.')[0]`: the longest prefix of `name` without a '.'. */
  function BaseName(name: string): (p: string)
    ensures |p| <= |name| && p == name[..|p|] && Dot !in p
    ensures |p| == |name| || name[|p|] == Dot
  {
    FirstPieceIsPrefixBeforeSeparator(name, Dot);
    Split(name, Dot)[0]
  }

  /** The file name given to the saved document (line 125): the part of `name`
      before its first '.', then ".pdf"; that part holds no '.'. */
  function OutputFileName(name: string): (r: string)
    ensures |r| >= |PdfExtension| && r[|r| - |PdfExtension|..] == PdfExtension
    ensures var p := r[..|r| - |PdfExtension|];
      |p| <= |name| && p == name[..|p|] && Dot !in p && (|p| == |name| || name[|p|] == Dot)
  {
    var p := BaseName(name);
    assert (p + PdfExtension)[..|p|] == p;
    assert (p + PdfExtension)[|p|..] == PdfExtension;
    p + PdfExtension
  }

  /** A name without any '.' keeps all its characters. */
  lemma OutputFileNameWithoutDot(name: string)
    requires Dot !in name
    ensures OutputFileName(name) == name + PdfExtension
  {
  }

  /** A name whose first '.' is at index `k` has base name `name[..k]`. */
  lemma BaseNameAtFirstDot(name: string, k: nat)
    requires k < |name| && name[k] == Dot && Dot !in name[..k]
    ensures BaseName(name) == name[..k]
    ensures OutputFileName(name) == name[..k] + PdfExtension
  {
  }

  /** Two sample names, and the empty name. */
  lemma OutputFileNameOfPhoto()
    ensures OutputFileName("photo.jpg") == "photo.pdf"
  {
    var name := "photo.jpg";
    BaseNameAtFirstDot(name, 5);
    assert name[..5] + PdfExtension == "photo.pdf";
  }

  /** A name with several dots loses everything from its first dot on. */
  lemma OutputFileNameOfDottedName()
    ensures OutputFileName("my.photo.jpg") == "my.pdf"
  {
    var name := "my.photo.jpg";
    BaseNameAtFirstDot(name, 2);
    assert name[..2] + PdfExtension == "my.pdf";
  }

  lemma OutputFileNameOfEmptyName()
    ensures OutputFileName("") == ".pdf"
  {
  }
}
