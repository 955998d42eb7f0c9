/** Field validation and input sanitising (src/utils/validation.ts). */
module Validation {
  import opened Wrappers
  import opened Sequences
  import opened JsString

  const MaxTitleLength: nat := 200
  const MaxNameLength: nat := 50
  const MaxSanitizedLength: nat := 200

  const TitleRequired := "Task title is required"
  const TitleTooLong := "Task title must be less than 200 characters"
  const NameRequired := "List name is required"
  const NameTooLong := "List name must be less than 50 characters"

  /* ---------------------------------------------------------------------- */
  /* Validators                                                              */
  /* ---------------------------------------------------------------------- */

  /** The shape both validators share: the blank check comes first, then the
      length bound on the trimmed text; no message means valid. */
  function CheckTrimmed(s: string, max: nat, required: string, tooLong: string): (r: Option<string>)
    ensures r == None || r == Some(required) || r == Some(tooLong)
  {
    if |Trim(s)| == 0 then Some(required)
    else if |Trim(s)| > max then Some(tooLong)
    else None
  }

  /** `validateTaskTitle` */
  function ValidateTaskTitle(title: string): (r: Option<string>)
    ensures r == None || r == Some(TitleRequired) || r == Some(TitleTooLong)
  {
    CheckTrimmed(title, MaxTitleLength, TitleRequired, TitleTooLong)
  }

  /** `validateListName` */
  function ValidateListName(name: string): (r: Option<string>)
    ensures r == None || r == Some(NameRequired) || r == Some(NameTooLong)
  {
    CheckTrimmed(name, MaxNameLength, NameRequired, NameTooLong)
  }

  /** The text holds some character that is not whitespace. */
  predicate HasVisibleChar(s: string)
  {
    exists k :: 0 <= k < |s| && !IsWhitespace(s[k])
  }

  lemma CheckTrimmedOutcomes(s: string, max: nat, required: string, tooLong: string)
    requires required != tooLong
    ensures CheckTrimmed(s, max, required, tooLong) == None <==> HasVisibleChar(s) && |Trim(s)| <= max
    ensures CheckTrimmed(s, max, required, tooLong) == Some(required) <==> !HasVisibleChar(s)
    ensures CheckTrimmed(s, max, required, tooLong) == Some(tooLong) <==> |Trim(s)| > max
  {
    TrimEmptyIff(s);
  }

  /** A title is accepted exactly when it has a visible character and its
      trimmed length is at most 200; 200 itself is accepted. */
  lemma TaskTitleAcceptedIff(title: string)
    ensures ValidateTaskTitle(title) == None <==> HasVisibleChar(title) && 1 <= |Trim(title)| <= 200
  {
    CheckTrimmedOutcomes(title, MaxTitleLength, TitleRequired, TitleTooLong);
  }

  /** Empty and whitespace-only titles, however long, get the "required"
      message: the blank check is made before the length check. */
  lemma TaskTitleRequiredIff(title: string)
    ensures ValidateTaskTitle(title) == Some(TitleRequired) <==>
      forall k :: 0 <= k < |title| ==> IsWhitespace(title[k])
  {
    CheckTrimmedOutcomes(title, MaxTitleLength, TitleRequired, TitleTooLong);
  }

  /** The length message is given exactly when the trimmed title is longer than 200. */
  lemma TaskTitleTooLongIff(title: string)
    ensures ValidateTaskTitle(title) == Some(TitleTooLong) <==> |Trim(title)| > 200
  {
    CheckTrimmedOutcomes(title, MaxTitleLength, TitleRequired, TitleTooLong);
  }

  /** A name is accepted exactly when it has a visible character and its
      trimmed length is at most 50; 50 itself is accepted. */
  lemma ListNameAcceptedIff(name: string)
    ensures ValidateListName(name) == None <==> HasVisibleChar(name) && 1 <= |Trim(name)| <= 50
  {
    CheckTrimmedOutcomes(name, MaxNameLength, NameRequired, NameTooLong);
  }

  /** Empty and whitespace-only names get the "required" message, before any length check. */
  lemma ListNameRequiredIff(name: string)
    ensures ValidateListName(name) == Some(NameRequired) <==>
      forall k :: 0 <= k < |name| ==> IsWhitespace(name[k])
  {
    CheckTrimmedOutcomes(name, MaxNameLength, NameRequired, NameTooLong);
  }

  /** The length message is given exactly when the trimmed name is longer than 50. */
  lemma ListNameTooLongIff(name: string)
    ensures ValidateListName(name) == Some(NameTooLong) <==> |Trim(name)| > 50
  {
    CheckTrimmedOutcomes(name, MaxNameLength, NameRequired, NameTooLong);
  }

  /* ---------------------------------------------------------------------- */
  /* Sanitiser: the two regular-expression passes as left-to-right scanners  */
  /* ---------------------------------------------------------------------- */

  const ScriptOpen := "<script"
  const ScriptClose := "</script>"

  /** The opening of `/<script\b.../gi` matches at the start of `s`: `<script`
      in any ASCII case, followed by the end of the text or a non-word character. */
  predicate OpensScript(s: string)
  {
    MatchesAtIgnoreCase(s, 0, ScriptOpen) && (|s| == |ScriptOpen| || !IsWordChar(s[|ScriptOpen|]))
  }

  predicate ClosesScriptAt(s: string, k: nat)
  {
    MatchesAtIgnoreCase(s, k, ScriptClose)
  }

  /** The first `</script>` (any ASCII case) at or after position `from`. */
  function FindClose(s: string, from: nat): (r: Option<nat>)
    decreases |s| - from
    ensures r.Some? ==> from <= r.value && r.value + |ScriptClose| <= |s| && ClosesScriptAt(s, r.value)
    ensures r.Some? ==> forall k :: from <= k < r.value ==> !ClosesScriptAt(s, k)
    ensures r.None? ==> forall k :: from <= k ==> !ClosesScriptAt(s, k)
  {
    if from + |ScriptClose| > |s| then None
    else if ClosesScriptAt(s, from) then Some(from)
    else FindClose(s, from + 1)
  }

  /** `.replace(/<script\b[^<]*(?:(?!<\/script>)<[^<]*)*<\/script>/gi, '')`:
      at each position, a script opening with a closing tag somewhere after it
      is removed through the first such closing tag; otherwise one character is
      kept and the scan moves on. */
  function StripScripts(s: string): (r: string)
    decreases |s|
    ensures |r| <= |s|
  {
    if s == [] then []
    else if OpensScript(s) && FindClose(s, |ScriptOpen|).Some? then
      StripScripts(s[FindClose(s, |ScriptOpen|).value + |ScriptClose|..])
    else [s[0]] + StripScripts(s[1..])
  }

  /** The first `c` at or after position `from`. */
  function FindChar(s: string, c: char, from: nat): (r: Option<nat>)
    decreases |s| - from
    ensures r.Some? ==> from <= r.value < |s| && s[r.value] == c
    ensures r.Some? ==> forall k :: from <= k < r.value ==> s[k] != c
    ensures r.None? ==> forall k :: from <= k < |s| ==> s[k] != c
  {
    if from >= |s| then None
    else if s[from] == c then Some(from)
    else FindChar(s, c, from + 1)
  }

  /** `.replace(/<[^>]*>/g, '')`: a `<` with a `>` somewhere after it is removed
      through the first such `>`; otherwise one character is kept. */
  function StripTags(s: string): (r: string)
    decreases |s|
    ensures |r| <= |s|
  {
    if s == [] then []
    else if s[0] == '<' && FindChar(s, '>', 1).Some? then
      StripTags(s[FindChar(s, '>', 1).value + 1..])
    else [s[0]] + StripTags(s[1..])
  }

  /** `sanitizeInput`: trim, remove script blocks, remove tags, keep at most 200 characters. */
  function SanitizeInput(input: string): (r: string)
    ensures |r| <= MaxSanitizedLength
  {
    var t := StripTags(StripScripts(Trim(input)));
    if |t| <= MaxSanitizedLength then t else t[..MaxSanitizedLength]
  }

  /** No `<` in `s` is followed, anywhere later, by a `>`. */
  predicate NoTagSpan(s: string)
  {
    forall i, j :: 0 <= i < j < |s| && s[i] == '<' ==> s[j] != '>'
  }

  /* ---------------------------------------------------------------------- */
  /* Properties of the sanitiser                                             */
  /* ---------------------------------------------------------------------- */

  lemma {:induction false} StripScriptsSubsequence(s: string)
    ensures IsSubsequence(StripScripts(s), s)
    decreases |s|
  {
    if s != [] {
      if OpensScript(s) && FindClose(s, |ScriptOpen|).Some? {
        var e := FindClose(s, |ScriptOpen|).value + |ScriptClose|;
        StripScriptsSubsequence(s[e..]);
        DropPrefix(StripScripts(s), s, e);
      } else {
        StripScriptsSubsequence(s[1..]);
        KeepHead(s[0], StripScripts(s[1..]), s[1..]);
        assert [s[0]] + s[1..] == s;
      }
    }
  }

  lemma {:induction false} StripTagsSubsequence(s: string)
    ensures IsSubsequence(StripTags(s), s)
    decreases |s|
  {
    if s != [] {
      if s[0] == '<' && FindChar(s, '>', 1).Some? {
        var e := FindChar(s, '>', 1).value + 1;
        StripTagsSubsequence(s[e..]);
        DropPrefix(StripTags(s), s, e);
      } else {
        StripTagsSubsequence(s[1..]);
        KeepHead(s[0], StripTags(s[1..]), s[1..]);
        assert [s[0]] + s[1..] == s;
      }
    }
  }

  /** After the tag pass no `<…>` span is left. */
  lemma {:induction false} StripTagsLeavesNoTagSpan(s: string)
    ensures NoTagSpan(StripTags(s))
    decreases |s|
  {
    if s != [] {
      if s[0] == '<' && FindChar(s, '>', 1).Some? {
        StripTagsLeavesNoTagSpan(s[FindChar(s, '>', 1).value + 1..]);
      } else {
        var rest := StripTags(s[1..]);
        StripTagsLeavesNoTagSpan(s[1..]);
        if s[0] == '<' {
          StripTagsSubsequence(s[1..]);
          SubsequenceElements(rest, s[1..]);
          assert forall j :: 0 <= j < |rest| ==> rest[j] != '>' by {
            forall j | 0 <= j < |rest| ensures rest[j] != '>' {
              assert rest[j] in s[1..];
            }
          }
        }
        assert StripTags(s) == [s[0]] + rest;
      }
    }
  }

  /** Text without any `<` passes the tag pass unchanged, and it may be split
      off the front of a longer text. */
  lemma {:induction false} StripTagsPlainPrefix(pre: string, s: string)
    requires '<' !in pre
    ensures StripTags(pre + s) == pre + StripTags(s)
    decreases |pre|
  {
    if pre == [] {
      assert pre + s == s;
    } else {
      var t := pre + s;
      assert t[0] == pre[0] && t[0] != '<';
      assert t[1..] == pre[1..] + s;
      StripTagsPlainPrefix(pre[1..], s);
      assert pre == [pre[0]] + pre[1..];
    }
  }

  /** A tag, from a `<` through the first `>` after it, is removed whole, and
      the scan resumes after it. */
  lemma StripTagsRemovesSpan(pre: string, s: string, k: nat)
    requires '<' !in pre
    requires |s| > 0 && s[0] == '<'
    requires 1 <= k < |s| && s[k] == '>'
    requires forall j :: 1 <= j < k ==> s[j] != '>'
    ensures StripTags(pre + s) == pre + StripTags(s[k + 1..])
  {
    StripTagsPlainPrefix(pre, s);
  }

  /** Text without any `>` passes the tag pass unchanged: a `<` that no `>`
      follows is kept. */
  lemma {:induction false} StripTagsUnterminated(s: string)
    requires '>' !in s
    ensures StripTags(s) == s
    decreases |s|
  {
    if s != [] {
      assert FindChar(s, '>', 1).None?;
      assert '>' !in s[1..] by {
        forall c | c in s[1..] ensures c != '>' {
          var m :| 0 <= m < |s[1..]| && s[1..][m] == c;
          assert s[m + 1] == c;
        }
      }
      StripTagsUnterminated(s[1..]);
      assert s == [s[0]] + s[1..];
    }
  }

  /** Text without any `<` passes the script pass unchanged, and it may be
      split off the front of a longer text. */
  lemma {:induction false} StripScriptsPlainPrefix(pre: string, s: string)
    requires '<' !in pre
    ensures StripScripts(pre + s) == pre + StripScripts(s)
    decreases |pre|
  {
    if pre != [] {
      var t := pre + s;
      assert t[0] == pre[0];
      StripScriptsKeepsPlainChar(t);
      assert t[1..] == pre[1..] + s;
      assert '<' !in pre[1..] by {
        assert forall c :: c in pre[1..] ==> c in pre;
      }
      StripScriptsPlainPrefix(pre[1..], s);
      calc {
        StripScripts(t);
        [pre[0]] + StripScripts(pre[1..] + s);
        [pre[0]] + (pre[1..] + StripScripts(s));
        { assert pre == [pre[0]] + pre[1..]; }
        pre + StripScripts(s);
      }
    } else {
      assert pre + s == s;
    }
  }

  /** A character other than `<` is kept, and the scan moves on by one. */
  lemma StripScriptsKeepsPlainChar(t: string)
    requires t != [] && t[0] != '<'
    ensures StripScripts(t) == [t[0]] + StripScripts(t[1..])
  {
    assert !OpensScript(t) by {
      assert LowerAscii(t[0]) != ScriptOpen[0];
    }
  }

  /** A character that does not start a removable script block (a `<` that
      is not a `<script` opening at a word boundary, or one with no closing tag
      after it, or any other character) is kept, and the scan moves on by one. */
  lemma StripScriptsKeepsOther(pre: string, s: string)
    requires '<' !in pre
    requires s != [] && !(OpensScript(s) && FindClose(s, |ScriptOpen|).Some?)
    ensures StripScripts(pre + s) == pre + [s[0]] + StripScripts(s[1..])
  {
    StripScriptsPlainPrefix(pre, s);
  }

  /** The word boundary after `<script` matters: a `<script` followed by a
      word character (as in `<scriptx</script>`) opens nothing, so its `<` is
      kept even when a closing tag follows, and the scan moves on by one. */
  lemma StripScriptsNeedsWordBoundary(s: string)
    requires MatchesAtIgnoreCase(s, 0, ScriptOpen)
    requires |s| > |ScriptOpen| && IsWordChar(s[|ScriptOpen|])
    ensures StripScripts(s) == [s[0]] + StripScripts(s[1..])
  {
    assert !OpensScript(s);
  }

  /** A script opening with no closing tag anywhere is not removed: it is left
      for the tag pass. */
  lemma {:induction false} StripScriptsUnterminated(s: string)
    requires forall k :: !ClosesScriptAt(s, k)
    ensures StripScripts(s) == s
    decreases |s|
  {
    if s != [] {
      assert FindClose(s, |ScriptOpen|).None?;
      forall k: nat ensures !ClosesScriptAt(s[1..], k) {
        if ClosesScriptAt(s[1..], k) {
          assert ClosesScriptAt(s, k + 1) by {
            forall m | 0 <= m < |ScriptClose| ensures LowerAscii(s[k + 1 + m]) == ScriptClose[m] {
              assert s[1..][k + m] == s[k + 1 + m];
            }
          }
        }
      }
      StripScriptsUnterminated(s[1..]);
    }
  }

  /** A script block, from a `<script` opening at a word boundary through the
      first closing tag after it, is removed whole, and the scan resumes after it. */
  lemma StripScriptsRemovesBlock(pre: string, s: string, k: nat)
    requires '<' !in pre
    requires OpensScript(s)
    requires |ScriptOpen| <= k && ClosesScriptAt(s, k)
    requires forall j :: |ScriptOpen| <= j < k ==> !ClosesScriptAt(s, j)
    ensures StripScripts(pre + s) == pre + StripScripts(s[k + |ScriptClose|..])
  {
    StripScriptsPlainPrefix(pre, s);
    FindCloseFirst(s, |ScriptOpen|, k);
  }

  lemma FindCloseFirst(s: string, from: nat, k: nat)
    requires from <= k && ClosesScriptAt(s, k)
    requires forall j :: from <= j < k ==> !ClosesScriptAt(s, j)
    ensures FindClose(s, from) == Some(k)
  {
  }

  /** `sanitizeInput` returns at most 200 characters, only deletes characters
      of the trimmed input (keeping their order), and leaves no `<…>` span;
      what it returns is the first 200 characters of the stripped text, or all
      of it when it is shorter. */
  lemma SanitizeInputSpec(input: string)
    ensures |SanitizeInput(input)| <= 200
    ensures var t := StripTags(StripScripts(Trim(input)));
      SanitizeInput(input) <= t && |SanitizeInput(input)| == if |t| <= 200 then |t| else 200
    ensures IsSubsequence(SanitizeInput(input), Trim(input))
    ensures IsSubsequence(SanitizeInput(input), input)
    ensures NoTagSpan(SanitizeInput(input))
  {
    var trimmed := Trim(input);
    var scripts := StripScripts(trimmed);
    var t := StripTags(scripts);
    var r := SanitizeInput(input);
    StripScriptsSubsequence(trimmed);
    StripTagsSubsequence(scripts);
    StripTagsLeavesNoTagSpan(scripts);
    SubsequenceTransitive(t, scripts, trimmed);
    SliceIsSubsequence(t, 0, |r|);
    assert r == t[0..|r|];
    SubsequenceTransitive(r, t, trimmed);
    TrimSlice(input);
    var i, j :| 0 <= i <= j <= |input| && trimmed == input[i..j];
    SliceIsSubsequence(input, i, j);
    SubsequenceTransitive(r, trimmed, input);
  }
}
