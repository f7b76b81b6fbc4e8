/** The application's file-type detection: the upload's name decides which extractor
    the document processor runs. */
module App {
  import opened Wrappers
  import opened DocProcessor

  /** Lower-casing of one character; only `A`-`Z` change. */
  function LowerChar(c: char): char {
    if 'A' <= c <= 'Z' then (c as int + 32) as char else c
  }

  /** Python's `s.lower()`, restricted to ASCII letters: every upper-case letter becomes
      its lower-case counterpart and every other character stays. */
  function Lower(s: string): string {
    seq(|s|, i requires 0 <= i < |s| => LowerChar(s[i]))
  }

  lemma LowerSpec(s: string)
    ensures var r := Lower(s);
      |r| == |s| &&
      (forall i :: 0 <= i < |r| ==> !('A' <= r[i] <= 'Z')) &&
      (forall i :: 0 <= i < |s| && !('A' <= s[i] <= 'Z') ==> r[i] == s[i]) &&
      (forall i :: 0 <= i < |s| && 'A' <= s[i] <= 'Z' ==> r[i] as int == s[i] as int + 32)
  {
  }

  /** Python's `s.endswith(suffix)`. */
  predicate EndsWith(s: string, suffix: string) {
    |suffix| <= |s| && s[|s| - |suffix|..] == suffix
  }

  /** `s` ends with `suffix` exactly when `s` is some text followed by `suffix`. */
  lemma EndsWithConcat(s: string, suffix: string)
    ensures EndsWith(s, suffix) <==> exists p :: s == p + suffix
  {
    if EndsWith(s, suffix) {
      var p := s[..|s| - |suffix|];
      assert s == p + suffix;
    }
    if exists p :: s == p + suffix {
      var p :| s == p + suffix;
      assert s[|s| - |suffix|..] == suffix;
    }
  }

  /** The tag for a file name, from its lower-cased extension; `None` where the source
      raises "Unsupported file type". */
  function GetFileType(fileName: string): (r: Option<string>)
    ensures r == Some("pdf") <==> EndsWith(Lower(fileName), ".pdf")
    ensures r == Some("docx") <==> EndsWith(Lower(fileName), ".docx")
    ensures r == Some("txt") <==> EndsWith(Lower(fileName), ".txt")
    ensures r.None? <==>
      !EndsWith(Lower(fileName), ".pdf") && !EndsWith(Lower(fileName), ".docx") &&
      !EndsWith(Lower(fileName), ".txt")
  {
    var name := Lower(fileName);
    SuffixesExclusive(name);
    if EndsWith(name, ".pdf") then Some("pdf")
    else if EndsWith(name, ".docx") then Some("docx")
    else if EndsWith(name, ".txt") then Some("txt")
    else None
  }

  /** No name ends with two of the three extensions, so the order of the tests does not
      matter. */
  lemma SuffixesExclusive(s: string)
    ensures !(EndsWith(s, ".pdf") && EndsWith(s, ".docx"))
    ensures !(EndsWith(s, ".pdf") && EndsWith(s, ".txt"))
    ensures !(EndsWith(s, ".docx") && EndsWith(s, ".txt"))
  {
    LastOfSuffix(s, ".pdf");
    LastOfSuffix(s, ".docx");
    LastOfSuffix(s, ".txt");
  }

  lemma LastOfSuffix(s: string, suffix: string)
    requires suffix != []
    ensures EndsWith(s, suffix) ==> s[|s| - 1] == suffix[|suffix| - 1]
  {
    if EndsWith(s, suffix) {
      assert s[|s| - |suffix|..][|suffix| - 1] == s[|s| - 1];
    }
  }

  lemma LowerAppend(a: string, b: string)
    ensures Lower(a + b) == Lower(a) + Lower(b)
  {
    var l := Lower(a + b);
    forall i | 0 <= i < |a + b| ensures l[i] == (Lower(a) + Lower(b))[i] {
      if i >= |a| {
        assert (a + b)[i] == b[i - |a|];
      }
    }
  }

  /** Only the final extension counts, whatever its case and whatever comes before it:
      a name ending in `.PDF`, `.Docx`, `.txt`, ... gets the tag of that extension. */
  lemma FinalExtensionDecides(stem: string, ext: string)
    requires Lower(ext) in {".pdf", ".docx", ".txt"}
    ensures GetFileType(stem + ext) == Some(Lower(ext)[1..])
  {
    LowerAppend(stem, ext);
    var name := Lower(stem + ext);
    assert name[|name| - |ext|..] == Lower(ext);
  }

  /** Instance: the case of the extension is ignored. */
  lemma UpperCaseExample()
    ensures GetFileType("A.PDF") == Some("pdf")
  {
    LowerIs(".PDF", ".pdf");
    FinalExtensionDecides("A", ".PDF");
    assert "A" + ".PDF" == "A.PDF";
  }

  /** Instance: mixed case in the extension is ignored too. */
  lemma MixedCaseExample()
    ensures GetFileType("Report.DocX") == Some("docx")
  {
    LowerIs(".DocX", ".docx");
    FinalExtensionDecides("Report", ".DocX");
    assert "Report" + ".DocX" == "Report.DocX";
  }

  /** Instance: a name with two extensions gets the last one's tag. */
  lemma DoubleExtensionExample()
    ensures GetFileType("x.pdf.txt") == Some("txt")
  {
    LowerIs(".txt", ".txt");
    FinalExtensionDecides("x.pdf", ".txt");
    assert "x.pdf" + ".txt" == "x.pdf.txt";
  }

  /** Instance: names without one of the three extensions get no tag, even when they
      contain one of the words. */
  lemma NoTagExample()
    ensures GetFileType("notes.md") == None
    ensures GetFileType("mypdf") == None
  {
    NotATag("notes.md");
    NotATag("mypdf");
  }

  /** A name whose lower-cased form ends in none of the three extensions gets no tag. */
  lemma NotATag(name: string)
    requires |name| >= 5
    requires var n := name[|name| - 5..];
      n != ".docx" && n[1..] != ".pdf" && n[1..] != ".txt" && forall c :: c in n ==> !('A' <= c <= 'Z')
    ensures GetFileType(name) == None
  {
    var l := Lower(name);
    var n := name[|name| - 5..];
    forall k | 0 <= k < 5 ensures l[|l| - 5..][k] == n[k] {
      assert n[k] in n;
    }
    assert l[|l| - 5..] == n;
    assert l[|l| - 4..] == n[1..];
  }

  lemma LowerIs(s: string, t: string)
    requires |s| == |t| && forall i :: 0 <= i < |s| ==> LowerChar(s[i]) == t[i]
    ensures Lower(s) == t
  {
  }

  /** Every tag the detection returns names an extractor of the document processor, the
      one for the name's extension. */
  lemma DetectedTypeIsSupported(fileName: string)
    ensures GetFileType(fileName).Some? ==> FormatOfTag(GetFileType(fileName).value).Some?
    ensures GetFileType(fileName).Some? ==> EndsWith(Lower(fileName), "." + GetFileType(fileName).value)
  {
    var r := GetFileType(fileName);
    if r == Some("pdf") {
      assert "." + "pdf" == ".pdf";
    } else if r == Some("docx") {
      assert "." + "docx" == ".docx";
    } else if r == Some("txt") {
      assert "." + "txt" == ".txt";
    }
  }
}
