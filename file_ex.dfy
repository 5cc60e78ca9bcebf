/**
  `getFileEx`: split a file name into its alphanumeric extension and the rest.

  The source matches the name against the case-insensitive regular expression
  `\.[0-9a-z]+$`, throws when there is no match, and otherwise removes the
  matched text from the name with `String.prototype.replace` (which removes the
  FIRST occurrence of the text, wherever it is) and the dot from the matched
  text (again with `replace`).
 */
module FileEx {
  import opened JsValues

  datatype Option<T> = None | Some(value: T)

  /** One character of the class `[0-9a-z]` under the `i` flag. */
  predicate IsAlnum(c: char) {
    '0' <= c <= '9' || 'a' <= c <= 'z' || 'A' <= c <= 'Z'
  }

  /** Every character of `t` is in the class `[0-9a-z]` under the `i` flag,
      checked from the last character back. */
  predicate AllAlnum(t: string) {
    |t| == 0 || (IsAlnum(t[|t| - 1]) && AllAlnum(t[..|t| - 1]))
  }

  /** `AllAlnum` holds exactly when every character is alphanumeric. */
  lemma {:induction false} AllAlnumMeansEveryChar(t: string)
    ensures AllAlnum(t) <==> forall k :: 0 <= k < |t| ==> IsAlnum(t[k])
  {
    if |t| > 0 {
      var init := t[..|t| - 1];
      AllAlnumMeansEveryChar(init);
      assert forall k :: 0 <= k < |init| ==> init[k] == t[k];
    }
  }

  /** The regular expression `\.[0-9a-z]+$` (flag `i`) matches `s` starting at
      index `i`: a dot there, and one or more alphanumerics from it to the end. */
  ghost predicate MatchesAt(s: string, i: int) {
    0 <= i < |s| - 1 && s[i] == '.' && AllAlnum(s[i + 1..])
  }

  /** `s.match(/\.[0-9a-z]+$/i)` is not null. */
  ghost predicate HasExtension(s: string) {
    exists i :: MatchesAt(s, i)
  }

  /** The number of alphanumeric characters at the end of `s`. */
  function AlnumSuffixLength(s: string): (k: nat)
    ensures k <= |s|
    ensures AllAlnum(s[|s| - k..])
    ensures k < |s| ==> !IsAlnum(s[|s| - 1 - k])
  {
    if |s| > 0 && IsAlnum(s[|s| - 1]) then
      var init := s[..|s| - 1];
      var k := AlnumSuffixLength(init);
      assert s[|s| - 1 - k..][..k] == init[|init| - k..];
      k + 1
    else
      0
  }

  /** A match can only start right before the alphanumeric run that ends `s`. */
  lemma MatchFollowsAlnumRun(s: string)
    ensures forall i :: MatchesAt(s, i) ==>
      0 < AlnumSuffixLength(s) < |s| && i == |s| - 1 - AlnumSuffixLength(s)
  {
    var k := AlnumSuffixLength(s);
    AllAlnumMeansEveryChar(s[|s| - k..]);
    forall j | |s| - k <= j < |s| ensures IsAlnum(s[j]) {
      assert s[j] == s[|s| - k..][j - (|s| - k)];
    }
    forall i | MatchesAt(s, i) ensures 0 < k < |s| && i == |s| - 1 - k {
      AllAlnumMeansEveryChar(s[i + 1..]);
      forall j | i < j < |s| ensures IsAlnum(s[j]) {
        assert s[j] == s[i + 1..][j - i - 1];
      }
      assert s[i] == '.' && IsAlnum(s[|s| - 1]);
    }
  }

  /** Where the match of `\.[0-9a-z]+$` starts, if there is one. */
  function MatchStart(s: string): (m: Option<nat>)
    ensures m.Some? ==> MatchesAt(s, m.value)
    ensures m.None? <==> !HasExtension(s)
    ensures forall i :: MatchesAt(s, i) ==> m == Some(i)
  {
    var k := AlnumSuffixLength(s);
    MatchFollowsAlnumRun(s);
    if 0 < k < |s| && s[|s| - 1 - k] == '.' then
      assert s[|s| - 1 - k + 1..] == s[|s| - k..];
      assert MatchesAt(s, |s| - 1 - k);
      Some(|s| - 1 - k)
    else
      None
  }

  /** `pat` occurs in `s` at index `k`. */
  predicate OccursAt(s: string, pat: string, k: int) {
    0 <= k && k + |pat| <= |s| && s[k..k + |pat|] == pat
  }

  /** `s.indexOf(pat, from)`: the first index at or after `from` where `pat`
      occurs, or none; a `from` beyond the end of `s` counts as the end. */
  function IndexOf(s: string, pat: string, from: nat): (r: Option<nat>)
    decreases if from <= |s| then |s| + 1 - from else |s| + 2
    ensures var start := if from <= |s| then from else |s|;
      r.Some? ==> start <= r.value && OccursAt(s, pat, r.value)
    ensures var start := if from <= |s| then from else |s|;
      forall k :: start <= k && (r.None? || k < r.value) ==> !OccursAt(s, pat, k)
  {
    if from > |s| then IndexOf(s, pat, |s|)
    else if from + |pat| > |s| then None
    else if s[from..from + |pat|] == pat then Some(from)
    else IndexOf(s, pat, from + 1)
  }

  /** `s.replace(pat, rep)` for a string pattern and a replacement without `$`
      patterns: the first occurrence of `pat` is replaced, and `s` is returned
      unchanged when there is none. */
  function Replace(s: string, pat: string, rep: string): string {
    match IndexOf(s, pat, 0)
    case None => s
    case Some(j) => s[..j] + rep + s[j + |pat|..]
  }

  /** `s.replace(pat, "")` cuts out the first occurrence of `pat`, which is
      at or before any occurrence `at` the caller knows of. */
  lemma ReplaceCutsFirstOccurrence(s: string, pat: string, at: nat)
    requires OccursAt(s, pat, at)
    ensures IndexOf(s, pat, 0).Some? && IndexOf(s, pat, 0).value <= at
    ensures var j := IndexOf(s, pat, 0).value;
      Replace(s, pat, "") == s[..j] + s[j + |pat|..]
  {
    var r := IndexOf(s, pat, 0);
    assert r.Some?;
    var j := r.value;
    assert s[..j] + "" == s[..j];
  }

  /** The pair `{ name, ex }` that `getFileEx` returns. */
  datatype Parts = Parts(name: string, ex: string)

  const NO_EXTENSION_MESSAGE := "Error... :'("

  /** `getFileEx(fileName)`: the matched text is replaced by nothing in the
      name, and the dot is replaced by nothing in the matched text. */
  function GetFileEx(fileName: string): (r: Completion<Parts>)
    ensures r.Throw? <==> !HasExtension(fileName)
    ensures r.Throw? ==> r.exception == Error(NO_EXTENSION_MESSAGE)
  {
    match MatchStart(fileName)
    case None => Throw(Error(NO_EXTENSION_MESSAGE))
    case Some(i) =>
      var matched := fileName[i..];
      Normal(Parts(Replace(fileName, matched, ""), Replace(matched, ".", "")))
  }

  /** On success, the match starts at `i` and `getFileEx` splits there. */
  lemma SplitsAtMatch(fileName: string) returns (i: nat)
    requires GetFileEx(fileName).Normal?
    ensures MatchStart(fileName) == Some(i) && MatchesAt(fileName, i)
    ensures var p := GetFileEx(fileName).value;
      && p.name == Replace(fileName, fileName[i..], "")
      && p.ex == Replace(fileName[i..], ".", "")
  {
    i := MatchStart(fileName).value;
  }

  /** Replacing the leading dot of `m` by nothing leaves the rest of `m`. */
  lemma LeadingDotReplaced(m: string)
    requires |m| > 0 && m[0] == '.'
    ensures Replace(m, ".", "") == m[1..]
    ensures m == "." + m[1..]
  {
    assert OccursAt(m, ".", 0);
    ReplaceCutsFirstOccurrence(m, ".", 0);
    assert IndexOf(m, ".", 0) == Some(0);
  }

  /** Splitting at a dot: `ex` is the text after the dot, the matched text is
      `"." + ex`, and `name` is what `replace` leaves once it is cut. */
  lemma DotParts(s: string, i: nat, name: string, ex: string)
    requires i < |s| && s[i] == '.'
    requires name == Replace(s, s[i..], "") && ex == Replace(s[i..], ".", "")
    ensures ex == s[i + 1..]
    ensures i == |s| - |ex| - 1
    ensures s[i..] == "." + ex
    ensures OccursAt(s, "." + ex, i)
    ensures name == Replace(s, "." + ex, "")
  {
    LeadingDotReplaced(s[i..]);
    assert s[i..][1..] == s[i + 1..];
    assert s[i..i + |s[i..]|] == s[i..];
  }

  /** When `name` is what `replace` leaves of `s` once `"." + ex` is cut and
      `"." + ex` occurs at `at`, `name` is `s` with the FIRST occurrence cut. */
  lemma CutsFirstDottedOccurrence(s: string, ex: string, at: nat, name: string)
      returns (j: nat)
    requires OccursAt(s, "." + ex, at)
    requires name == Replace(s, "." + ex, "")
    ensures IndexOf(s, "." + ex, 0) == Some(j)
    ensures j <= at
    ensures name == s[..j] + s[j + |ex| + 1..]
  {
    var pat := "." + ex;
    assert |pat| == |ex| + 1;
    ReplaceCutsFirstOccurrence(s, pat, at);
    j := IndexOf(s, pat, 0).value;
  }

  /** Cutting the suffix `"." + ex` that starts at `t` out of `s` leaves the
      prefix, and the prefix joined back with `"." + ex` is `s`. */
  lemma JoinStem(s: string, ex: string, t: nat, stem: string)
    requires t + |ex| + 1 == |s| && s[t..] == "." + ex
    requires stem == s[..t] + s[t + |ex| + 1..]
    ensures stem == s[..t]
    ensures stem + "." + ex == s
  {
    assert s[t + |ex| + 1..] == [];
    assert s[..t] + s[t..] == s;
    assert stem + "." + ex == stem + ("." + ex);
  }

  /** The text after a match's dot is a non-empty alphanumeric run. */
  lemma MatchTailIsAlnum(s: string, i: nat, ex: string)
    requires MatchesAt(s, i) && ex == s[i + 1..]
    ensures ex != []
    ensures forall k :: 0 <= k < |ex| ==> IsAlnum(ex[k])
    ensures '.' !in ex
  {
    AllAlnumMeansEveryChar(ex);
  }

  /** `"." + ex` does not occur before the place where it would end `s`. */
  predicate TrailingOccurrenceIsFirst(s: string, ex: string) {
    forall k :: 0 <= k < |s| - |ex| - 1 ==> !OccursAt(s, "." + ex, k)
  }

  /** Splitting at a dot that starts the first occurrence of `"." + ex` gives
      the stem, and joining it back gives `s`. */
  lemma SplitIsStem(s: string, i: nat, name: string, ex: string)
    requires i < |s| && s[i] == '.'
    requires name == Replace(s, s[i..], "") && ex == Replace(s[i..], ".", "")
    requires TrailingOccurrenceIsFirst(s, ex)
    ensures name == s[..|s| - |ex| - 1]
    ensures name + "." + ex == s
  {
    DotParts(s, i, name, ex);
    var j := CutsFirstDottedOccurrence(s, ex, i, name);
    assert j == i by {
      assert OccursAt(s, "." + ex, j);
    }
    JoinStem(s, ex, i, name);
  }

  /** Splitting at a match: `ex` is a non-empty alphanumeric run without a
      dot, and `s` ends in `"." + ex`. */
  lemma SplitAtMatchTail(s: string, i: nat, name: string, ex: string)
    requires MatchesAt(s, i)
    requires name == Replace(s, s[i..], "") && ex == Replace(s[i..], ".", "")
    ensures ex != []
    ensures forall k :: 0 <= k < |ex| ==> IsAlnum(ex[k])
    ensures '.' !in ex
    ensures |ex| < |s|
    ensures s[|s| - |ex| - 1..] == "." + ex
  {
    DotParts(s, i, name, ex);
    MatchTailIsAlnum(s, i, ex);
  }

  /** On success, `ex` is the text after the match's dot. */
  lemma ExtensionFollowsMatchedDot(fileName: string)
    requires GetFileEx(fileName).Normal?
    ensures var i := MatchStart(fileName).value;
      && MatchesAt(fileName, i)
      && GetFileEx(fileName).value.ex == fileName[i + 1..]
  {
    var i := SplitsAtMatch(fileName);
    var p := GetFileEx(fileName).value;
    DotParts(fileName, i, p.name, p.ex);
  }

  /** On success, `ex` is a non-empty run of ASCII letters and digits without a
      dot, and the file name ends in `"." + ex`: `ex` is the text after the
      name's last dot. */
  lemma ExtensionIsTrailingAlnumRun(fileName: string)
    requires GetFileEx(fileName).Normal?
    ensures var ex := GetFileEx(fileName).value.ex;
      && ex != []
      && (forall k :: 0 <= k < |ex| ==> IsAlnum(ex[k]))
      && '.' !in ex
      && |ex| < |fileName|
      && fileName[|fileName| - |ex| - 1..] == "." + ex
  {
    var i := SplitsAtMatch(fileName);
    var p := GetFileEx(fileName).value;
    SplitAtMatchTail(fileName, i, p.name, p.ex);
  }

  /** The name is what `replace` leaves of the file name once `"." + ex` is cut. */
  lemma NameIsReplaceOfExtension(fileName: string)
    requires GetFileEx(fileName).Normal?
    ensures var p := GetFileEx(fileName).value;
      && OccursAt(fileName, "." + p.ex, |fileName| - |p.ex| - 1)
      && p.name == Replace(fileName, "." + p.ex, "")
  {
    var i := SplitsAtMatch(fileName);
    var p := GetFileEx(fileName).value;
    DotParts(fileName, i, p.name, p.ex);
  }

  /** When the trailing `"." + ex` is its first occurrence, the name is the
      stem and joining it back with the extension gives the file name. */
  lemma NameIsStem(fileName: string)
    requires GetFileEx(fileName).Normal?
    requires TrailingOccurrenceIsFirst(fileName, GetFileEx(fileName).value.ex)
    ensures var p := GetFileEx(fileName).value;
      && p.name + "." + p.ex == fileName
      && p.name == fileName[..|fileName| - |p.ex| - 1]
  {
    var i := SplitsAtMatch(fileName);
    var p := GetFileEx(fileName).value;
    assert MatchesAt(fileName, i);
    SplitIsStem(fileName, i, p.name, p.ex);
  }

  /** The first ".js" in "x.js.bak.js" is the one at index 1. */
  lemma FirstJsInRepeated()
    ensures IndexOf("x.js.bak.js", ".js", 0) == Some(1)
  {
    var s := "x.js.bak.js";
    assert s[0..3] != ".js" by { assert s[0..3][0] == 'x'; }
    assert s[1..4] == ".js";
    assert IndexOf(s, ".js", 0) == IndexOf(s, ".js", 1);
  }

  /** `"x.js.bak.js".replace(".js", "")` cuts the ".js" at index 1. */
  lemma JsCutFromRepeated()
    ensures Replace("x.js.bak.js", ".js", "") == "x.bak.js"
  {
    var s := "x.js.bak.js";
    FirstJsInRepeated();
    assert s[..1] + "" + s[4..] == "x.bak.js";
  }

  /** The first occurrence is not always the trailing one: for "x.js.bak.js"
      the extension is "js" but the name is "x.bak.js", not "x.js.bak". */
  lemma RepeatedExtensionIsCutAtFirstOccurrence()
    ensures GetFileEx("x.js.bak.js") == Normal(Parts("x.bak.js", "js"))
  {
    var s := "x.js.bak.js";
    assert s[9..] == "js";
    assert MatchesAt(s, 8);
    assert s[8..] == ".js";
    LeadingDotReplaced(".js");
    assert ".js"[1..] == "js";
    JsCutFromRepeated();
  }

  /** `"a.txt".replace(".txt", "")` cuts the ".txt" at index 1. */
  lemma TxtCutFromPlainName()
    ensures Replace("a.txt", ".txt", "") == "a"
  {
    var s := "a.txt";
    assert s[0..4] != ".txt" by { assert s[0..4][0] == 'a'; }
    assert s[1..5] == ".txt";
    assert IndexOf(s, ".txt", 0) == IndexOf(s, ".txt", 1);
    assert s[..1] + "" + s[5..] == "a";
  }

  /** The common case: "a.txt" has the name "a" and the extension "txt". */
  lemma PlainNameSplits()
    ensures GetFileEx("a.txt") == Normal(Parts("a", "txt"))
  {
    var s := "a.txt";
    assert s[2..] == "txt";
    AllAlnumMeansEveryChar("txt");
    assert MatchesAt(s, 1);
    assert s[1..] == ".txt";
    LeadingDotReplaced(".txt");
    assert ".txt"[1..] == "txt";
    TxtCutFromPlainName();
  }

  /** Names without a dot followed by letters or digits up to the end throw. */
  lemma NamesWithoutExtensionThrow()
    ensures GetFileEx("README") == Throw(Error(NO_EXTENSION_MESSAGE))
    ensures GetFileEx("a.") == Throw(Error(NO_EXTENSION_MESSAGE))
    ensures GetFileEx("a.tar-gz") == Throw(Error(NO_EXTENSION_MESSAGE))
  {
    assert forall i :: !MatchesAt("README", i);
    assert forall i :: !MatchesAt("a.", i);
    var s := "a.tar-gz";
    assert !AllAlnum(s[2..]) by {
      AllAlnumMeansEveryChar(s[2..]);
      assert s[2..][3] == '-';
    }
    assert forall i :: MatchesAt(s, i) ==> i == 1;
  }
}
