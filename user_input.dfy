/** The command-line chapter choice: reading the typed answer, and turning
    the chosen value into the list of chapters to generate. */
module UserInput {
  import opened Wrappers
  import opened JsString

  /** Each chapter number as a parsed value. */
  function Parsed(chapterNumbers: seq<int>): (r: seq<Option<int>>)
    ensures |r| == |chapterNumbers| && forall k :: 0 <= k < |r| ==> r[k] == Some(chapterNumbers[k])
  {
    seq(|chapterNumbers|, k requires 0 <= k < |chapterNumbers| => Some(chapterNumbers[k]))
  }

  /** `getChaptersToProcess(selected, chapterNumbers, allOption)`: every
      chapter for the all-option, otherwise the one number `parseInt(selected,
      10)` (`None` for NaN). */
  function GetChaptersToProcess(selected: string, chapterNumbers: seq<int>, allOption: string): seq<Option<int>> {
    if selected == allOption then Parsed(chapterNumbers) else [ParseInt(selected, 10)]
  }

  /** The answer callback of `getChapterSelection`: the all-option, a listed
      chapter number as typed (trimmed and lower-cased), or else the first
      chapter's number; `None` where `chapterNumbers[0]` does not exist and
      the call throws. */
  function ResolveAnswer(answer: string, chapterNumbers: seq<int>, allOption: string): (r: Option<string>)
    ensures r.None? <==> |chapterNumbers| == 0 && ToLower(Trim(answer)) != allOption
  {
    var trimmedAnswer := ToLower(Trim(answer));
    if trimmedAnswer == allOption then Some(allOption)
    else
      var num := ParseInt(trimmedAnswer, 10);
      if num.None? || num.value !in chapterNumbers then
        (if |chapterNumbers| > 0 then Some(IntToString(chapterNumbers[0])) else None)
      else Some(trimmedAnswer)
  }

  /** What the user gets: the all-option (after trim and lower-case) selects
      every chapter; a number in the list selects that chapter alone; any
      other answer selects the first chapter, which is every chapter in the
      one case where its number is written like the all-option. The result
      is always every chapter or one chapter of the list. */
  lemma ChosenChapters(answer: string, chapterNumbers: seq<int>, allOption: string)
    requires |chapterNumbers| > 0
    ensures var sel := ResolveAnswer(answer, chapterNumbers, allOption).value;
      var cs := GetChaptersToProcess(sel, chapterNumbers, allOption);
      var t := ToLower(Trim(answer));
      (t == allOption ==> cs == Parsed(chapterNumbers))
      && (t != allOption && ParseInt(t, 10).Some? && ParseInt(t, 10).value in chapterNumbers ==>
            cs == [ParseInt(t, 10)])
      && (t != allOption && (ParseInt(t, 10).None? || ParseInt(t, 10).value !in chapterNumbers) ==>
            cs == (if IntToString(chapterNumbers[0]) == allOption then Parsed(chapterNumbers) else [Some(chapterNumbers[0])]))
      && (cs == Parsed(chapterNumbers) || (|cs| == 1 && cs[0].Some? && cs[0].value in chapterNumbers))
  {
    ParseIntToString(chapterNumbers[0], 10);
  }
}
