/** Which files the script processes: keyword matching over the `*.json`
    names (`get_matching_files`), one answer at the selection prompt
    (`interactive_file_selection`) and the choice between the three modes. */
module FileSelection {
  import opened Wrappers
  import opened Text
  import opened Sorting

  /** A file name matches when one of the keywords occurs in it; without a
      keyword list (`None`) every file matches. */
  ghost predicate Matches(file: string, keywords: Option<seq<string>>)
  {
    keywords.None? || exists k :: k in keywords.value && IsSubstring(k, file)
  }

  /** Each name occurs at most once. */
  ghost predicate NoDuplicates(s: seq<string>)
  {
    forall f :: multiset(s)[f] <= 1
  }

  /** The names of `files` that match, in their original order: what the
      loop of `get_matching_files` appends before sorting. */
  ghost function Filter(files: seq<string>, keywords: Option<seq<string>>): (r: seq<string>)
    ensures |r| <= |files|
    ensures forall f :: f in r ==> f in files && Matches(f, keywords)
  {
    if files == [] then []
    else
      var init, last := files[..|files| - 1], files[|files| - 1];
      Filter(init, keywords) + (if Matches(last, keywords) then [last] else [])
  }

  /** Filtering keeps every matching name as often as it was listed and drops
      every other name. */
  lemma {:induction false} FilterCounts(files: seq<string>, keywords: Option<seq<string>>)
    ensures forall f ::
      multiset(Filter(files, keywords))[f] == (if Matches(f, keywords) then multiset(files)[f] else 0)
  {
    if files != [] {
      var init, last := files[..|files| - 1], files[|files| - 1];
      FilterCounts(init, keywords);
      assert files == init + [last];
    }
  }

  /** `get_matching_files`, given the names `glob('*.json')` returned. */
  method GetMatchingFiles(jsonFiles: seq<string>, keywords: Option<seq<string>>) returns (r: seq<string>)
    ensures IsSorted(r)
    ensures forall f :: multiset(r)[f] == if Matches(f, keywords) then multiset(jsonFiles)[f] else 0
    ensures forall f :: f in r <==> f in jsonFiles && Matches(f, keywords)
    ensures NoDuplicates(jsonFiles) ==> NoDuplicates(r)
    ensures keywords.None? ==> multiset(r) == multiset(jsonFiles)
    ensures keywords == Some([]) ==> r == []
  {
    if keywords.None? {
      r := Sort(jsonFiles);
      return;
    }
    var kws := keywords.value;
    var matching: seq<string> := [];
    for i := 0 to |jsonFiles|
      invariant matching == Filter(jsonFiles[..i], keywords)
    {
      var file := jsonFiles[i];
      assert jsonFiles[..i + 1][..i] == jsonFiles[..i];
      for j := 0 to |kws|
        invariant matching == Filter(jsonFiles[..i], keywords)
        invariant forall l :: 0 <= l < j ==> !IsSubstring(kws[l], file)
      {
        if Contains(file, kws[j]) {
          assert kws[j] in kws;
          matching := matching + [file];
          break;
        }
      }
    }
    assert jsonFiles[..|jsonFiles|] == jsonFiles;
    r := Sort(matching);
    FilterCounts(jsonFiles, keywords);
    MatchingCounts(r, jsonFiles, keywords);
  }

  /** The consequences of the counts `get_matching_files` keeps. */
  lemma MatchingCounts(r: seq<string>, jsonFiles: seq<string>, keywords: Option<seq<string>>)
    requires forall f :: multiset(r)[f] == if Matches(f, keywords) then multiset(jsonFiles)[f] else 0
    ensures forall f :: f in r <==> f in jsonFiles && Matches(f, keywords)
    ensures NoDuplicates(jsonFiles) ==> NoDuplicates(r)
    ensures keywords == Some([]) ==> r == []
  {
    if keywords == Some([]) {
      assert forall f :: multiset(r)[f] == 0;
      assert multiset(r) == multiset{};
    }
  }

  /** What one answer at the prompt leads to: a final choice, or a new prompt. */
  datatype Selection = Done(files: seq<string>) | Retry

  /** Python's `int()` on the forms modelled here: surrounding whitespace, an
      optional sign and at least one decimal digit. */
  function ParseInt(s: string): (r: Option<int>)
    ensures r.Some? ==> Trim(s) != [] && AllDigits(Trim(s)[1..])
    ensures r.Some? && !IsDigit(Trim(s)[0]) ==> |Trim(s)| > 1 && Trim(s)[0] in "+-"
    ensures r.Some? && r.value < 0 ==> Trim(s)[0] == '-'
  {
    var u := Trim(s);
    if |u| > 1 && (u[0] == '+' || u[0] == '-') && AllDigits(u[1..]) then
      Some(if u[0] == '-' then -(DigitsValue(u[1..]) as int) else DigitsValue(u[1..]))
    else if |u| > 0 && AllDigits(u) then
      Some(DigitsValue(u))
    else
      None
  }

  /** `[int(x.strip()) for x in parts]`: every part read as an integer, or
      nothing at all when one of them is not an integer. */
  function ParseIndices(parts: seq<string>): (r: Option<seq<int>>)
    ensures r.Some? <==> forall i :: 0 <= i < |parts| ==> ParseInt(parts[i]).Some?
    ensures r.Some? ==> (|r.value| == |parts| &&
      forall i :: 0 <= i < |parts| ==> r.value[i] == ParseInt(parts[i]).value)
  {
    if parts == [] then Some([])
    else
      match ParseInt(parts[0])
      case None => None
      case Some(n) =>
        match ParseIndices(parts[1..])
        case None =>
          assert exists i :: 1 <= i < |parts| && ParseInt(parts[i]).None? by {
            var i :| 0 <= i < |parts[1..]| && ParseInt(parts[1..][i]).None?;
            assert ParseInt(parts[i + 1]).None?;
          }
          None
        case Some(rest) =>
          assert forall i :: 1 <= i < |parts| ==> ParseInt(parts[i]) == ParseInt(parts[1..][i - 1]);
          Some([n] + rest)
  }

  /** The answer as the prompt compares it: stripped and lower-cased. */
  function Normalize(line: string): string
  {
    Lower(Trim(line))
  }

  predicate IsQuitWord(sel: string)
  {
    sel == "none" || sel == "quit" || sel == "exit"
  }

  predicate InRange(idx: int, candidates: seq<string>)
  {
    1 <= idx <= |candidates|
  }

  /** The decision one answer leads to. */
  function ParseSelection(candidates: seq<string>, line: string): (r: Selection)
    ensures r.Done? ==> forall f :: f in r.files ==> f in candidates
  {
    var sel := Normalize(line);
    if IsQuitWord(sel) then Done([])
    else if sel == "all" then Done(candidates)
    else PickParts(candidates, Split(sel, ','))
  }

  /** The comma-separated parts read as numbers, then looked up. */
  function PickParts(candidates: seq<string>, parts: seq<string>): Selection
  {
    match ParseIndices(parts)
    case None => Retry
    case Some(indices) => Pick(candidates, indices)
  }

  /** The files that 1-based `indices` name, or `Retry` if one is out of range. */
  function Pick(candidates: seq<string>, indices: seq<int>): Selection
  {
    if forall j :: 0 <= j < |indices| ==> InRange(indices[j], candidates) then
      Done(seq(|indices|, j requires 0 <= j < |indices| && InRange(indices[j], candidates) =>
        candidates[indices[j] - 1]))
    else
      Retry
  }

  /** One pass of the prompt loop of `interactive_file_selection` on an
      answer already read. */
  method SelectFiles(candidates: seq<string>, line: string) returns (r: Selection)
    ensures r == ParseSelection(candidates, line)
  {
    var sel := Normalize(line);
    if IsQuitWord(sel) {
      return Done([]);
    }
    if sel == "all" {
      return Done(candidates);
    }
    var parsed := ParseIndices(Split(sel, ','));
    if parsed.None? {
      // `int()` raised `ValueError`: the prompt is shown again.
      return Retry;
    }
    r := PickFiles(candidates, parsed.value);
  }

  /** The loop over the numbers of one answer: each must name a candidate. */
  method PickFiles(candidates: seq<string>, indices: seq<int>) returns (r: Selection)
    ensures r == Pick(candidates, indices)
  {
    var selected: seq<string> := [];
    for j := 0 to |indices|
      invariant |selected| == j
      invariant forall l :: 0 <= l < j ==> InRange(indices[l], candidates) && selected[l] == candidates[indices[l] - 1]
    {
      var idx := indices[j];
      if InRange(idx, candidates) {
        selected := selected + [candidates[idx - 1]];
      } else {
        // "Invalid file number": the `for` is left by `break`, so its `else`
        // is skipped and the prompt is shown again.
        return Retry;
      }
    }
    return Done(selected);
  }

  /** The answers that end the prompt without numbers: the quit words give
      nothing and "all" gives every candidate, in any case and with any
      surrounding whitespace. */
  lemma SelectionWords(candidates: seq<string>, line: string)
    ensures IsQuitWord(Normalize(line)) ==> ParseSelection(candidates, line) == Done([])
    ensures Normalize(line) == "all" ==> ParseSelection(candidates, line) == Done(candidates)
  {
  }

  /** A list of numbers is taken as a whole or not at all: the answer is
      accepted exactly when every comma-separated part is an integer in
      `1..|candidates|`, and then it selects `candidates[i - 1]` for each
      number `i` in the order given, repeats included. */
  lemma SelectionAllOrNothing(candidates: seq<string>, line: string)
    requires !IsQuitWord(Normalize(line)) && Normalize(line) != "all"
    ensures var parts := Split(Normalize(line), ',');
      ParseSelection(candidates, line).Done? <==>
        forall j :: 0 <= j < |parts| ==> ParseInt(parts[j]).Some? && InRange(ParseInt(parts[j]).value, candidates)
    ensures var parts := Split(Normalize(line), ',');
      ParseSelection(candidates, line).Done? ==>
        var files := ParseSelection(candidates, line).files;
        |files| == |parts| &&
        forall j :: 0 <= j < |parts| ==>
          (ParseInt(parts[j]).Some? && InRange(ParseInt(parts[j]).value, candidates) &&
           files[j] == candidates[ParseInt(parts[j]).value - 1])
  {
    PartsAllOrNothing(candidates, Split(Normalize(line), ','));
  }

  lemma PartsAllOrNothing(candidates: seq<string>, parts: seq<string>)
    ensures PickParts(candidates, parts).Done? <==>
      forall j :: 0 <= j < |parts| ==> ParseInt(parts[j]).Some? && InRange(ParseInt(parts[j]).value, candidates)
    ensures PickParts(candidates, parts).Done? ==>
      var files := PickParts(candidates, parts).files;
      |files| == |parts| &&
      forall j :: 0 <= j < |parts| ==>
        (ParseInt(parts[j]).Some? && InRange(ParseInt(parts[j]).value, candidates) &&
         files[j] == candidates[ParseInt(parts[j]).value - 1])
  {
    var parsed := ParseIndices(parts);
    if parsed.None? {
      var j :| 0 <= j < |parts| && ParseInt(parts[j]).None?;
    }
  }

  /** `int()` reads a run of digits after an optional sign, with any
      surrounding whitespace: "2" and "+2" are 2, "-1" is -1. */
  lemma ParseIntDigits(pre: string, sign: string, digits: string, post: string)
    requires sign == "" || sign == "+" || sign == "-"
    requires digits != [] && AllDigits(digits)
    requires AllSpace(pre) && AllSpace(post)
    ensures ParseInt(pre + sign + digits + post) ==
      Some(if sign == "-" then -(DigitsValue(digits) as int) else DigitsValue(digits) as int)
  {
    var core := sign + digits;
    assert pre + sign + digits + post == pre + core + post;
    SignedCore(sign, digits);
    TrimPadded(pre, core, post);
  }

  lemma SignedCore(sign: string, digits: string)
    requires sign == "" || sign == "+" || sign == "-"
    requires digits != [] && AllDigits(digits)
    ensures var core := sign + digits;
      && core != [] && !IsSpace(core[0]) && !IsSpace(core[|core| - 1])
      && (sign == "" ==> core == digits)
      && (sign != "" ==> |core| > 1 && core[0] == sign[0] && core[1..] == digits)
  {
    var core := sign + digits;
    if sign != "" {
      assert core[1..] == digits;
    }
  }

  /** Case and padding do not matter for the words: " ALL " selects every
      candidate and "Quit" selects nothing. */
  lemma ExampleCapitals(candidates: seq<string>)
    ensures ParseSelection(candidates, " ALL ") == Done(candidates)
    ensures ParseSelection(candidates, "Quit") == Done([])
  {
    CapitalWords();
    SelectionWords(candidates, " ALL ");
    SelectionWords(candidates, "Quit");
  }

  lemma CapitalWords()
    ensures Normalize(" ALL ") == "all"
    ensures Normalize("Quit") == "quit"
  {
    TrimPadded(" ", "ALL", " ");
    assert " " + "ALL" + " " == " ALL ";
    TrimPadded("", "Quit", "");
    assert "" + "Quit" + "" == "Quit";
    LowerAll();
    LowerQuit();
  }

  lemma LowerAll()
    ensures Lower("ALL") == "all"
  {
    var a := Lower("ALL");
    assert a[0] == 'a' && a[1] == 'l' && a[2] == 'l';
  }

  lemma LowerQuit()
    ensures Lower("Quit") == "quit"
  {
    var q := Lower("Quit");
    assert q[0] == 'q' && q[1] == 'u' && q[2] == 'i' && q[3] == 't';
  }

  /** With two candidates, "1,3" names a file that does not exist, so the
      whole answer is refused rather than selecting the first file alone. */
  lemma ExampleOutOfRange()
    ensures ParseSelection(["a.json", "b.json"], "1,3") == Retry
  {
    OutOfRangeAnswer();
    OutOfRangeNumbers();
    assert !InRange(3, ["a.json", "b.json"]);
    assert [1, 3][1] == 3;
  }

  lemma OutOfRangeAnswer()
    ensures ParseSelection(["a.json", "b.json"], "1,3") == PickParts(["a.json", "b.json"], ["1", "3"])
  {
    TrimPadded("", "1,3", "");
    assert "" + "1,3" + "" == "1,3";
    NumbersAnswer(["a.json", "b.json"], "1,3", "1,3", ["1", "3"]);
  }

  lemma OutOfRangeNumbers()
    ensures ParseIndices(["1", "3"]) == Some([1, 3])
  {
    ParseIntDigits("", "", "1", "");
    ParseIntDigits("", "", "3", "");
    assert "" + "" + "1" + "" == "1" && "" + "" + "3" + "" == "3";
    assert DigitsValue("1") == 1 && DigitsValue("3") == 3;
    var r := ParseIndices(["1", "3"]).value;
    assert |r| == 2 && r[0] == 1 && r[1] == 3;
    assert r == [1, 3];
  }

  lemma ReorderedParts()
    ensures ParseInt("2") == Some(2) && ParseInt(" 1") == Some(1)
  {
    ParseIntDigits("", "", "2", "");
    ParseIntDigits(" ", "", "1", "");
    assert "" + "" + "2" + "" == "2" && " " + "" + "1" + "" == " 1";
    assert DigitsValue("1") == 1 && DigitsValue("2") == 2;
  }

  /** " 2, 1 " selects both candidates, in the order given. */
  lemma ExampleReordered()
    ensures ParseSelection(["a.json", "b.json"], " 2, 1 ") == Done(["b.json", "a.json"])
  {
    ReorderedAnswer();
    ReorderedNumbers();
    ReorderedPick();
  }

  lemma ReorderedPick()
    ensures Pick(["a.json", "b.json"], [2, 1]) == Done(["b.json", "a.json"])
  {
    var indices := [2, 1];
    assert InRange(indices[0], ["a.json", "b.json"]) && InRange(indices[1], ["a.json", "b.json"]);
    var files := Pick(["a.json", "b.json"], indices).files;
    assert |files| == 2 && files[0] == "b.json" && files[1] == "a.json";
    assert files == ["b.json", "a.json"];
  }

  lemma ReorderedAnswer()
    ensures ParseSelection(["a.json", "b.json"], " 2, 1 ") == PickParts(["a.json", "b.json"], ["2", " 1"])
  {
    TrimPadded(" ", "2, 1", " ");
    assert " " + "2, 1" + " " == " 2, 1 ";
    NumbersAnswer(["a.json", "b.json"], " 2, 1 ", "2, 1", ["2", " 1"]);
  }

  lemma ReorderedNumbers()
    ensures ParseIndices(["2", " 1"]) == Some([2, 1])
  {
    ReorderedParts();
    var r := ParseIndices(["2", " 1"]).value;
    assert |r| == 2 && r[0] == 2 && r[1] == 1;
    assert r == [2, 1];
  }

  /** An answer that strips to `sel`, with no capital letters and no quit
      word, is split at its commas. */
  lemma NumbersAnswer(candidates: seq<string>, line: string, sel: string, parts: seq<string>)
    requires Trim(line) == sel && forall i :: 0 <= i < |sel| ==> !IsUpper(sel[i])
    requires |parts| > 0 && (forall i :: 0 <= i < |parts| ==> ',' !in parts[i])
    requires Join(parts, ',') == sel
    requires !IsQuitWord(sel) && sel != "all"
    ensures ParseSelection(candidates, line) == PickParts(candidates, parts)
  {
    assert Normalize(line) == sel;
    SplitJoin(parts, ',');
  }

  /** `file in existing` for every `file` of `files`, in order: the loop over
      `--files` that keeps the paths `os.path.exists` accepts. */
  function KeepExisting(files: seq<string>, existing: set<string>): (r: seq<string>)
    ensures |r| <= |files|
    ensures forall f :: f in r ==> f in files && f in existing
  {
    if files == [] then []
    else
      var init := KeepExisting(files[..|files| - 1], existing);
      if files[|files| - 1] in existing then init + [files[|files| - 1]] else init
  }

  /** The kept paths are exactly the existing ones, each as often as given. */
  lemma {:induction false} KeepExistingCounts(files: seq<string>, existing: set<string>)
    ensures forall f ::
      multiset(KeepExisting(files, existing))[f] == (if f in existing then multiset(files)[f] else 0)
  {
    if files != [] {
      var init, last := files[..|files| - 1], files[|files| - 1];
      KeepExistingCounts(init, existing);
      assert files == init + [last];
    }
  }

  /** The mode priority of the main block: a non-empty `--files` list (keeping
      the paths that exist), else `--all` (every matching file), else the
      interactive choice. `processAll` is the `--all` flag and `chosen` what
      `interactive_file_selection` returned. */
  method ResolveTargets(explicitFiles: Option<seq<string>>, processAll: bool, matching: seq<string>,
                        chosen: seq<string>, existing: set<string>) returns (r: seq<string>)
    ensures explicitFiles.Some? && explicitFiles.value != [] ==> r == KeepExisting(explicitFiles.value, existing)
    ensures !(explicitFiles.Some? && explicitFiles.value != []) && processAll ==> r == matching
    ensures !(explicitFiles.Some? && explicitFiles.value != []) && !processAll ==> r == chosen
  {
    if explicitFiles.Some? && explicitFiles.value != [] {
      var files := explicitFiles.value;
      r := [];
      for i := 0 to |files|
        invariant r == KeepExisting(files[..i], existing)
      {
        assert files[..i + 1][..i] == files[..i];
        if files[i] in existing {
          r := r + [files[i]];
        }
      }
      assert files[..|files|] == files;
    } else if processAll {
      r := matching;
    } else {
      r := chosen;
    }
  }
}
