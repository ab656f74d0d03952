/**
 * The citation generator: look a Digital File ID up in the merged metadata
 * table and format an NSIDC photograph citation from the first matching row.
 * A missing cell of the spreadsheet is `None`.
 */
module Citation {
  import opened Wrappers
  import opened Text

  /** One row of the merged metadata table, restricted to the columns read. */
  datatype MetadataRow = MetadataRow(
    digitalFileId: Option<string>,
    photographer: Option<string>,
    glacierName: Option<string>,
    photographNumber: Option<string>,
    date: Option<string>)

  const DEFAULT_GLACIER := "Unknown Glacier"
  const DEFAULT_PHOTO_NUMBER := "Unknown"
  const CITATION_END := "https://nsidc.org. Accessed May 2025."
  const NSIDC := "National Snow and Ice Data Center. "

  // ---------------------------------------------------------------------
  // Lookup: the first row whose Digital File ID equals the requested ID
  // ---------------------------------------------------------------------

  /** Whether a row's Digital File ID cell holds `fileId`; a missing cell never does. */
  predicate Matches(row: MetadataRow, fileId: string) {
    row.digitalFileId == Some(fileId)
  }

  /** The index of the first matching row, or `|table|` when none matches. */
  function FirstMatch(table: seq<MetadataRow>, fileId: string): (n: nat)
    ensures n <= |table|
    ensures n < |table| ==> Matches(table[n], fileId)
    ensures forall j :: 0 <= j < n ==> !Matches(table[j], fileId)
  {
    if table == [] then 0
    else if Matches(table[0], fileId) then 0
    else
      var n := 1 + FirstMatch(table[1..], fileId);
      assert forall j :: 1 <= j < |table| ==> table[j] == table[1..][j - 1];
      n
  }

  /** The message returned when no row matches. */
  function NotFoundMessage(fileId: string): string {
    "Error: File ID '" + fileId + "' not found in metadata."
  }

  // ---------------------------------------------------------------------
  // Field clean-up
  // ---------------------------------------------------------------------

  /**
   * The photograph number with its heading removed: when the lowered text
   * contains "photograph number", the two capitalisations of the heading are
   * replaced by nothing, the text is trimmed and leading ':' and ' ' are
   * dropped.  Any other text is kept as it is.
   */
  function CleanPhotoNumber(p: string): (r: string)
    ensures !Contains(Lower(p), "photograph number") ==> r == p
    ensures Contains(Lower(p), "photograph number") ==>
      r == [] || (r[0] != ':' && r[0] != ' ' && !IsSpace(r[|r| - 1]))
  {
    if Contains(Lower(p), "photograph number") then
      var removed := Replace(Replace(p, "Photograph number", ""), "Photograph Number", "");
      var trimmed := Strip(removed);
      var r := LStripChars(trimmed, {':', ' '});
      RStripShape(LStrip(removed));
      assert r != [] ==> r[|r| - 1] == trimmed[|trimmed| - 1];
      r
    else p
  }

  /** The heading, in lower case, that marks a photograph number to clean up. */
  const PHRASE := "photograph number"

  /**
   * `s` with every occurrence of the lower-case `phrase` removed, matched
   * without regard to case and scanned left to right.  A text whose lowered
   * form does not contain `phrase` comes back unchanged.
   */
  function RemoveAnyCase(s: string, phrase: string): (r: string)
    requires phrase != []
    ensures !Contains(Lower(s), phrase) ==> r == s
    decreases |s|
  {
    if StartsWith(Lower(s), phrase) then RemoveAnyCase(s[|phrase|..], phrase)
    else if s == [] then []
    else
      LowerTail(s);
      [s[0]] + RemoveAnyCase(s[1..], phrase)
  }

  /**
   * The scan goes on after a removed heading: the first occurrence of the
   * heading, in any capitalisation, is removed, the text before it is kept,
   * and the rest is scanned in turn, so every occurrence is removed.
   */
  lemma {:induction false} RemoveAnyCaseFirstOccurrence(x: string, h: string, y: string, phrase: string)
    requires phrase != [] && Lower(h) == phrase
    requires !Contains(Lower(x + h[..|h| - 1]), phrase)
    ensures RemoveAnyCase(x + h + y, phrase) == x + RemoveAnyCase(y, phrase)
    decreases |x|
  {
    if x == [] {
      assert x + h + y == h + y;
      RemoveAnyCaseAtFront(h, y, phrase);
      assert x + RemoveAnyCase(y, phrase) == RemoveAnyCase(y, phrase);
    } else {
      NoHeadingNearHead(x, h, y, phrase);
      Regroup(x, h, y);
      RemoveAnyCaseSkipsHead(x, h + y, phrase);
      RemoveAnyCaseFirstOccurrence(x[1..], h, y, phrase);
      ConsRegroup(x, [], RemoveAnyCase(y, phrase));
      assert x[1..] + [] == x[1..] && x + [] == x;
    }
  }

  /** A heading at the front is removed and the scan goes on after it. */
  lemma RemoveAnyCaseAtFront(h: string, y: string, phrase: string)
    requires phrase != [] && Lower(h) == phrase
    ensures RemoveAnyCase(h + y, phrase) == RemoveAnyCase(y, phrase)
  {
    LowerConcat(h, y);
    PrefixOfConcat(Lower(h), Lower(y));
    assert (h + y)[|phrase|..] == y;
  }

  /** A character that does not start a heading is kept. */
  lemma RemoveAnyCaseSkipsHead(x: string, rest: string, phrase: string)
    requires phrase != [] && x != [] && !StartsWith(Lower(x + rest), phrase)
    ensures RemoveAnyCase(x + rest, phrase) == [x[0]] + RemoveAnyCase(x[1..] + rest, phrase)
  {
    assert (x + rest)[1..] == x[1..] + rest;
  }

  /**
   * No heading starts at the head of `x`, nor anywhere in `x[1..]` before
   * the heading `h` itself.
   */
  lemma NoHeadingNearHead(x: string, h: string, y: string, phrase: string)
    requires phrase != [] && x != [] && Lower(h) == phrase
    requires !Contains(Lower(x + h[..|h| - 1]), phrase)
    ensures !StartsWith(Lower(x + (h + y)), phrase)
    ensures !Contains(Lower(x[1..] + h[..|h| - 1]), phrase)
  {
    var near := x + h[..|h| - 1];
    HeadsAgree(x, h, y);
    LowerPrefixAgree(x + (h + y), near, |h|);
    SamePrefixStarts(Lower(x + (h + y)), Lower(near), phrase);
    LowerTail(near);
    assert near[1..] == x[1..] + h[..|h| - 1];
  }

  /** Texts that agree on their first `n` characters agree there once lowered. */
  lemma LowerPrefixAgree(s: string, t: string, n: nat)
    requires n <= |s| && n <= |t| && s[..n] == t[..n]
    ensures Lower(s)[..n] == Lower(t)[..n]
  {
    assert forall i :: 0 <= i < n ==> s[i] == s[..n][i] && t[i] == t[..n][i];
  }

  /**
   * The clean-up the comments of the source describe: the heading is
   * removed whatever its capitalisation, then the text is trimmed and
   * leading ':' and ' ' are dropped.  It differs from `CleanPhotoNumber`
   * only in how the heading is found and removed.
   */
  function CleanPhotoNumberAnyCase(p: string): (r: string)
    ensures !Contains(Lower(p), PHRASE) ==> r == p
    ensures Contains(Lower(p), PHRASE) ==>
      r == [] || (r[0] != ':' && r[0] != ' ' && !IsSpace(r[|r| - 1]))
  {
    if Contains(Lower(p), PHRASE) then
      var removed := RemoveAnyCase(p, PHRASE);
      var trimmed := Strip(removed);
      var r := LStripChars(trimmed, {':', ' '});
      RStripShape(LStrip(removed));
      assert r != [] ==> r[|r| - 1] == trimmed[|trimmed| - 1];
      r
    else p
  }

  /** Python truthiness of an optional text cell: present and non-empty. */
  predicate Truthy(cell: Option<string>) {
    cell.Some? && cell.value != ""
  }

  /**
   * The date part of the citation: empty for a missing or empty date; the
   * first four characters and ". " when the date contains "XX" or "xx";
   * the whole date and ". " otherwise.
   */
  function FormatDate(date: Option<string>): (r: string)
    ensures r == [] <==> !Truthy(date)
    ensures Truthy(date) ==> EndsWith(r, ". ") && StartsWith(date.value, r[..|r| - 2])
    ensures Truthy(date) && (Contains(date.value, "XX") || Contains(date.value, "xx")) ==>
      |r| - 2 == Min(4, |date.value|)
    ensures Truthy(date) && !Contains(date.value, "XX") && !Contains(date.value, "xx") ==>
      r[..|r| - 2] == date.value
  {
    if !Truthy(date) then ""
    else
      var d := date.value;
      var head := if Contains(d, "XX") || Contains(d, "xx") then Take(d, 4) else d;
      assert (head + ". ")[..|head|] == head;
      head + ". "
  }

  // ---------------------------------------------------------------------
  // Templates
  // ---------------------------------------------------------------------

  /**
   * The citation: with a truthy photographer it opens with the
   * photographer's name, otherwise with the data center's name; both forms
   * carry the bracketed glacier name, the photograph number and the same
   * closing link and access note.
   */
  function FormatCitation(photographer: Option<string>, glacier: string, photo: string, dateStr: string): (c: string)
    ensures Truthy(photographer) ==>
      StartsWith(c, photographer.value + ". " + dateStr + ("[" + glacier + "]") + ". " + NSIDC)
    ensures !Truthy(photographer) ==> StartsWith(c, NSIDC + dateStr + ("[" + glacier + "]") + ". ")
    ensures Contains(c, "[" + glacier + "]")
    ensures Contains(c, "Photograph Number: " + photo + ". ")
    ensures EndsWith(c, CITATION_END)
  {
    var bracketed := "[" + glacier + "]";
    var number := "Photograph Number: " + photo + ". ";
    var lead := if Truthy(photographer) then photographer.value + ". " + dateStr else NSIDC + dateStr;
    var head := if Truthy(photographer) then lead + bracketed + ". " + NSIDC else lead + bracketed + ". ";
    ContainsSuffix(lead, bracketed);
    ContainsExtend(lead + bracketed, ". ", bracketed);
    if Truthy(photographer) then
      ContainsExtend(lead + bracketed + ". ", NSIDC, bracketed);
      CitationLayout(head, bracketed, number);
      head + number + CITATION_END
    else
      CitationLayout(head, bracketed, number);
      head + number + CITATION_END
  }

  /**
   * A citation is its head, the photograph number and the closing note:
   * it starts with the head, keeps what the head contains and ends with
   * the closing note.
   */
  lemma CitationLayout(head: string, bracketed: string, number: string)
    requires Contains(head, bracketed)
    ensures StartsWith(head + number + CITATION_END, head)
    ensures Contains(head + number + CITATION_END, bracketed)
    ensures Contains(head + number + CITATION_END, number)
    ensures EndsWith(head + number + CITATION_END, CITATION_END)
  {
    PrefixOfConcat(head, number);
    PrefixExtend(head + number, CITATION_END, head);
    ContainsExtend(head, number, bracketed);
    ContainsExtend(head + number, CITATION_END, bracketed);
    ContainsSuffix(head, number);
    ContainsExtend(head + number, CITATION_END, number);
    SuffixOfConcat(head + number, CITATION_END);
  }

  /**
   * The citation for one row, with the defaults for missing cells applied
   * and the photograph number cleaned as the script does.
   */
  function CitationOf(row: MetadataRow): (c: string)
    ensures Truthy(row.photographer) ==> StartsWith(c, row.photographer.value + ". " + FormatDate(row.date))
    ensures !Truthy(row.photographer) ==> StartsWith(c, NSIDC + FormatDate(row.date))
    ensures Contains(c, "[" + row.glacierName.GetOr(DEFAULT_GLACIER) + "]")
    ensures Contains(c, "Photograph Number: " + CleanPhotoNumber(row.photographNumber.GetOr(DEFAULT_PHOTO_NUMBER)) + ". ")
    ensures EndsWith(c, CITATION_END)
  {
    FormatCitation(
      row.photographer,
      row.glacierName.GetOr(DEFAULT_GLACIER),
      CleanPhotoNumber(row.photographNumber.GetOr(DEFAULT_PHOTO_NUMBER)),
      FormatDate(row.date))
  }

  /**
   * `generate_citation` on an already loaded table: the error message
   * exactly when no row matches, and otherwise the citation of the first
   * matching row.
   */
  function GenerateCitation(table: seq<MetadataRow>, fileId: string): (c: string)
    ensures c == NotFoundMessage(fileId) <==> forall j :: 0 <= j < |table| ==> !Matches(table[j], fileId)
    ensures FirstMatch(table, fileId) < |table| ==> c == CitationOf(table[FirstMatch(table, fileId)])
  {
    var n := FirstMatch(table, fileId);
    if n == |table| then NotFoundMessage(fileId)
    else
      CitationNotError(table[n], fileId);
      CitationOf(table[n])
  }

  // ---------------------------------------------------------------------
  // Properties
  // ---------------------------------------------------------------------

  /** A citation never reads as the error message: their endings differ. */
  lemma CitationNotError(row: MetadataRow, fileId: string)
    ensures CitationOf(row) != NotFoundMessage(fileId)
  {
    var c := CitationOf(row);
    var m := NotFoundMessage(fileId);
    var mTail := "' not found in metadata.";
    assert m == "Error: File ID '" + fileId + mTail;
    assert m[|m| - 2] == mTail[|mTail| - 2] == 'a';
    assert c[|c| - 2] == c[|c| - |CITATION_END|..][|CITATION_END| - 2] == '5';
  }

  /**
   * Only the first matching row counts: rows before it do not match, and
   * whatever follows it (other rows with the same ID included) is ignored.
   */
  lemma FirstMatchWins(before: seq<MetadataRow>, row: MetadataRow, after: seq<MetadataRow>, fileId: string)
    requires forall j :: 0 <= j < |before| ==> !Matches(before[j], fileId)
    requires Matches(row, fileId)
    ensures GenerateCitation(before + [row] + after, fileId) == CitationOf(row)
  {
    var table := before + [row] + after;
    assert table[|before|] == row;
    assert forall j :: 0 <= j < |before| ==> table[j] == before[j];
    var n := FirstMatch(table, fileId);
    assert n == |before|;
  }

  /** Appending rows never changes the citation of an ID that already matches. */
  lemma LaterRowsIgnored(table: seq<MetadataRow>, more: seq<MetadataRow>, fileId: string)
    requires exists j :: 0 <= j < |table| && Matches(table[j], fileId)
    ensures GenerateCitation(table + more, fileId) == GenerateCitation(table, fileId)
  {
    var n := FirstMatch(table, fileId);
    assert table == table[..n] + [table[n]] + table[n + 1..];
    assert table + more == table[..n] + [table[n]] + (table[n + 1..] + more);
    FirstMatchWins(table[..n], table[n], table[n + 1..] + more, fileId);
  }

  /** "Unknown" holds no heading, so a missing photograph number is cited as "Unknown". */
  lemma UnknownIsKept()
    ensures CleanPhotoNumber(DEFAULT_PHOTO_NUMBER) == DEFAULT_PHOTO_NUMBER
    ensures CleanPhotoNumberAnyCase(DEFAULT_PHOTO_NUMBER) == DEFAULT_PHOTO_NUMBER
  {
    ContainsNeedsRoom(Lower(DEFAULT_PHOTO_NUMBER), "photograph number");
  }

  /**
   * The defaults: a missing glacier name is cited as "[Unknown Glacier]", a
   * missing photograph number as "Unknown", and a missing or empty
   * photographer selects the data-center template.
   */
  lemma DefaultsApplied(row: MetadataRow)
    ensures row.glacierName == None ==> Contains(CitationOf(row), "[" + DEFAULT_GLACIER + "]")
    ensures row.photographNumber == None ==>
      Contains(CitationOf(row), "Photograph Number: " + DEFAULT_PHOTO_NUMBER + ". ")
    ensures !Truthy(row.photographer) ==> StartsWith(CitationOf(row), NSIDC)
    ensures Truthy(row.photographer) ==> StartsWith(CitationOf(row), row.photographer.value + ". ")
  {
    UnknownIsKept();
    var c := CitationOf(row);
    var b := "[" + row.glacierName.GetOr(DEFAULT_GLACIER) + "]";
    var d := FormatDate(row.date);
    var opening := if Truthy(row.photographer) then row.photographer.value + ". " else NSIDC;
    PrefixOfConcat(opening, d);
    PrefixExtend(opening + d, b, opening);
    PrefixExtend(opening + d + b, ". ", opening);
    if Truthy(row.photographer) {
      PrefixExtend(opening + d + b + ". ", NSIDC, opening);
      PrefixTrans(c, opening + d + b + ". " + NSIDC, opening);
    } else {
      PrefixTrans(c, opening + d + b + ". ", opening);
    }
  }

  /**
   * The clean-up undoes the heading: either capitalisation of "Photograph
   * number", then ": ", then a trimmed number holding no heading and not
   * starting with ':' or ' ', gives back the number.
   */
  lemma CleanRemovesLabel(heading: string, n: string)
    requires heading == "Photograph Number" || heading == "Photograph number"
    requires Strip(n) == n && (n == [] || (n[0] != ':' && n[0] != ' '))
    requires !Contains(n, "Photograph number") && !Contains(n, "Photograph Number")
    ensures CleanPhotoNumber(heading + ": " + n) == n
  {
    LabelIsFound(heading, ": " + n);
    assert heading + ": " + n == heading + (": " + n);
    if heading == "Photograph Number" {
      UpperHeadingRemoved(n);
    } else {
      LowerHeadingRemoved(n);
    }
    LabelTailCleaned(n);
  }

  /** Neither heading can start inside ": " followed by a number free of headings. */
  lemma TailHasNoHeading(n: string)
    requires !Contains(n, "Photograph number") && !Contains(n, "Photograph Number")
    ensures !Contains(": " + n, "Photograph number") && !Contains(": " + n, "Photograph Number")
  {
    ContainsAfterSkip(": ", n, "Photograph number");
    ContainsAfterSkip(": ", n, "Photograph Number");
  }

  lemma UpperHeadingRemoved(n: string)
    requires !Contains(n, "Photograph number") && !Contains(n, "Photograph Number")
    ensures Replace(Replace("Photograph Number" + (": " + n), "Photograph number", ""), "Photograph Number", "")
      == ": " + n
  {
    TailHasNoHeading(n);
    HeadingsDiffer();
    HeadingKept("Photograph Number", "Photograph number", ": " + n, 11);
    ReplaceLeading("Photograph Number", ": " + n, "");
    assert "" + (": " + n) == ": " + n;
  }

  /** The two capitalisations differ at the 'N', and 'P' opens each of them only. */
  lemma HeadingsDiffer()
    ensures "Photograph Number"[11] != "Photograph number"[11]
    ensures "Photograph number"[0] !in "Photograph Number"[1..]
  {
    assert "Photograph Number"[1..] == "hotograph Number";
  }

  /**
   * A pattern that differs from the heading within its length, and whose
   * first character occurs in the heading only at its head, is not found
   * in the heading followed by a text free of it.
   */
  lemma HeadingKept(heading: string, pattern: string, tail: string, k: nat)
    requires k < |heading| && k < |pattern| && heading[k] != pattern[k]
    requires pattern[0] !in heading[1..] && !Contains(tail, pattern)
    ensures Replace(heading + tail, pattern, "") == heading + tail
  {
    PrefixOfConcat(heading, tail);
    PrefixesDiffer(heading + tail, heading, pattern, k);
    NotContainsPast(heading, tail, pattern);
  }

  lemma LowerHeadingRemoved(n: string)
    requires !Contains(n, "Photograph number") && !Contains(n, "Photograph Number")
    ensures Replace(Replace("Photograph number" + (": " + n), "Photograph number", ""), "Photograph Number", "")
      == ": " + n
  {
    TailHasNoHeading(n);
    ReplaceLeading("Photograph number", ": " + n, "");
    assert "" + (": " + n) == ": " + n;
  }

  lemma LabelIsFound(heading: string, tail: string)
    requires heading == "Photograph Number" || heading == "Photograph number"
    ensures Contains(Lower(heading + tail), "photograph number")
  {
    LowerConcat(heading, tail);
    assert Lower(heading) == "photograph number";
    assert (Lower(heading) + Lower(tail))[..|Lower(heading)|] == Lower(heading);
  }

  lemma LabelTailCleaned(n: string)
    requires Strip(n) == n && (n == [] || (n[0] != ':' && n[0] != ' '))
    ensures LStripChars(Strip(": " + n), {':', ' '}) == n
  {
    if n == [] {
      assert ": " + n == ": ";
      ColonSpaceStripped();
    } else {
      TailStripped(n);
      MarksDropped(n, {':', ' '});
    }
  }

  /** Only the space of a bare ": " is trimmed, and then the colon is dropped. */
  lemma ColonSpaceStripped()
    ensures LStripChars(Strip(": "), {':', ' '}) == []
  {
    assert LStrip(": ") == ": ";
    assert ": "[..1] == ":";
    assert RStrip(": ") == RStrip(":") == ":";
    assert LStripChars(":", {':', ' '}) == LStripChars([], {':', ' '});
  }

  /** ": " before a non-empty trimmed number survives the trim. */
  lemma TailStripped(n: string)
    requires n != [] && Strip(n) == n
    ensures Strip(": " + n) == ": " + n
  {
    var tail := ": " + n;
    assert LStrip(tail) == tail;
    RStripShape(LStrip(n));
    assert tail[|tail| - 1] == n[|n| - 1];
  }

  /** Dropping leading ':' and ' ' from ": " and a number that starts otherwise gives the number. */
  lemma MarksDropped(n: string, marks: set<char>)
    requires marks == {':', ' '}
    // The literal is a parameter pinned by `requires` only to keep the solver's work small.
    requires n != [] && n[0] !in marks
    ensures LStripChars(": " + n, marks) == n
  {
    var spaced := [' '] + n;
    assert ": " + n == [':'] + spaced;
    LStripCharsSkip(':', spaced, marks);
    LStripCharsSkip(' ', n, marks);
    LStripCharsStop(n, marks);
  }

  /**
   * The heading in any capitalisation, then ": ", then a trimmed number
   * whose lowered text holds no heading and which does not start with ':'
   * or ' ', is cleaned to the number.
   */
  lemma CleanAnyCaseRemovesLabel(heading: string, n: string)
    requires Lower(heading) == PHRASE
    requires Strip(n) == n && (n == [] || (n[0] != ':' && n[0] != ' '))
    requires !Contains(Lower(n), PHRASE)
    ensures CleanPhotoNumberAnyCase(heading + ": " + n) == n
  {
    var tail := ": " + n;
    var p := heading + tail;
    LowerConcat(heading, tail);
    PrefixOfConcat(Lower(heading), Lower(tail));
    assert p[|PHRASE|..] == tail;
    LowerConcat(": ", n);
    assert Lower(": ") == ": ";
    ContainsAfterSkip(": ", Lower(n), PHRASE);
    assert RemoveAnyCase(p, PHRASE) == tail;
    assert heading + ": " + n == p;
    LabelTailCleaned(n);
  }

  /**
   * The heading in capitals passes the lowered test but is not removed,
   * because only two capitalisations are replaced; the clean-up the
   * comments describe removes it.
   */
  lemma CapitalHeadingKept()
    ensures CleanPhotoNumber("PHOTOGRAPH NUMBER: 12") == "PHOTOGRAPH NUMBER: 12"
    ensures CleanPhotoNumberAnyCase("PHOTOGRAPH NUMBER: 12") == "12"
  {
    CapitalsAsWritten("PHOTOGRAPH NUMBER: 12", "PHOTOGRAPH NUMBER");
    CapitalsAnyCase("PHOTOGRAPH NUMBER: 12", "PHOTOGRAPH NUMBER", "12");
  }

  lemma CapitalsAsWritten(p: string, heading: string)
    requires p == "PHOTOGRAPH NUMBER: 12" && heading == "PHOTOGRAPH NUMBER"
    // The literal is a parameter pinned by `requires` only to keep the solver's work small.
    ensures CleanPhotoNumber(p) == p
  {
    CapitalHeadingLowered(heading);
    assert p == heading + ": 12";
    LabelFoundAnyCase(heading, ": 12");
    CapitalsNotReplaced(p, "Photograph number");
    CapitalsNotReplaced(p, "Photograph Number");
    StripUnpadded(p);
    LStripCharsStop(p, {':', ' '});
  }

  lemma CapitalsAnyCase(p: string, heading: string, n: string)
    requires p == "PHOTOGRAPH NUMBER: 12" && heading == "PHOTOGRAPH NUMBER" && n == "12"
    // The literal is a parameter pinned by `requires` only to keep the solver's work small.
    ensures CleanPhotoNumberAnyCase(p) == n
  {
    CapitalHeadingLowered(heading);
    assert p == heading + ": " + n;
    StripUnpadded(n);
    ContainsNeedsRoom(Lower(n), PHRASE);
    CleanAnyCaseRemovesLabel(heading, n);
  }

  lemma CapitalHeadingLowered(heading: string)
    requires heading == "PHOTOGRAPH NUMBER"
    // The literal is a parameter pinned by `requires` only to keep the solver's work small.
    ensures Lower(heading) == PHRASE
  {
    forall i | 0 <= i < |heading| ensures Lower(heading)[i] == PHRASE[i] {
    }
  }

  lemma LabelFoundAnyCase(heading: string, tail: string)
    requires Lower(heading) == PHRASE
    ensures Contains(Lower(heading + tail), PHRASE)
  {
    LowerConcat(heading, tail);
    PrefixOfConcat(Lower(heading), Lower(tail));
  }

  /** Neither mixed-case heading occurs in "PHOTOGRAPH NUMBER: 12". */
  lemma CapitalsNotReplaced(p: string, pattern: string)
    requires p == "PHOTOGRAPH NUMBER: 12"
    requires pattern == "Photograph number" || pattern == "Photograph Number"
    // The literal is a parameter pinned by `requires` only to keep the solver's work small.
    ensures Replace(p, pattern, "") == p
  {
    var a, b := p[..5], p[5..];
    assert a + b == p;
    assert a[1..] == "HOTO";
    PrefixesDiffer(p, p, pattern, 1);
    ContainsNeedsRoom(b, pattern);
    NotContainsPast(a, b, pattern);
  }

  /** The spreadsheet's usual form: "Photograph Number: 123" is cited as "123". */
  lemma CleanExample()
    ensures CleanPhotoNumber("Photograph Number: 123") == "123"
    ensures CleanPhotoNumberAnyCase("Photograph Number: 123") == "123"
  {
    var n := "123";
    StripUnpadded(n);
    ContainsNeedsRoom(n, "Photograph number");
    ContainsNeedsRoom(n, "Photograph Number");
    CleanRemovesLabel("Photograph Number", n);
    assert "Photograph Number" + ": " + n == "Photograph Number: 123";
    UsualFormAnyCase("Photograph Number", n);
  }

  lemma UsualFormAnyCase(heading: string, n: string)
    requires heading == "Photograph Number" && n == "123"
    // The literal is a parameter pinned by `requires` only to keep the solver's work small.
    ensures CleanPhotoNumberAnyCase(heading + ": " + n) == n
  {
    assert Lower(heading) == PHRASE;
    StripUnpadded(n);
    ContainsNeedsRoom(Lower(n), PHRASE);
    CleanAnyCaseRemovesLabel(heading, n);
  }

  /** A date with unknown month and day is cited by its year. */
  lemma YearOnlyDate(year: string, rest: string)
    requires |year| == 4
    ensures FormatDate(Some(year + "-XX-" + rest)) == year + ". "
  {
    var d := year + "-XX-" + rest;
    ContainsMiddle(year + "-", "XX", "-" + rest);
    assert (year + "-") + "XX" + ("-" + rest) == d;
    assert d[..4] == year;
    assert Take(d, 4) == year;
  }
}
