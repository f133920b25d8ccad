/** The rewrite in `process_file` of convert_alpha.py: the global,
    left-to-right, non-overlapping `pattern.sub(replacement, content)` with

      (@define-color background\s+)(\{\{background\}\}|#[0-9a-fA-F]{6})(;)

    MatchAt is the pattern tried at one position; Sub is the search of
    `re.sub`, which copies the text where the pattern does not match and
    hands each match to a callback; Replacement is the callback of
    `process_file`. */
module ColorLine {
  import opened Wrappers
  import opened HexColor

  const Directive: string := "@define-color background"
  const Placeholder: string := "{{background}}"

  /** The opacity passed at line 38, as the text Python renders for `0.7` */
  const Alpha: string := "0.7"

  /** `\s`, restricted to the ASCII whitespace characters */
  predicate IsSpace(c: char) {
    c == ' ' || c == '\t' || c == '\n' || c == '\r' || c == '\U{0B}' || c == '\U{0C}'
  }

  /** `p` occurs in `s` at position `i` */
  predicate HasPrefixAt(s: string, i: nat, p: string) {
    i + |p| <= |s| && s[i..i + |p|] == p
  }

  /** `#[0-9a-fA-F]{6}` */
  predicate IsHexToken(t: string) {
    |t| == 7 && t[0] == '#' && AllHex(t[1..])
  }

  /** Group 2 of the pattern: the placeholder or a hex colour */
  predicate IsColorToken(t: string) {
    t == Placeholder || IsHexToken(t)
  }

  /** One match: group 1 (the directive with its whitespace run) and group 2
      (the colour); group 3 is always `;` */
  datatype Match = Match(prefix: string, color: string)

  /** The text a match covers */
  function MatchText(m: Match): (t: string) {
    m.prefix + m.color + ";"
  }

  /** What the pattern demands of a match */
  predicate WellFormed(m: Match) {
    && |m.prefix| > |Directive|
    && m.prefix[..|Directive|] == Directive
    && (forall x :: |Directive| <= x < |m.prefix| ==> IsSpace(m.prefix[x]))
    && IsColorToken(m.color)
  }

  /** End of the maximal whitespace run that starts at `j` */
  function SpaceRun(s: string, j: nat): (k: nat)
    requires j <= |s|
    ensures j <= k <= |s|
    ensures forall x :: j <= x < k ==> IsSpace(s[x])
    ensures k == |s| || !IsSpace(s[k])
    decreases |s| - j
  {
    if j < |s| && IsSpace(s[j]) then SpaceRun(s, j + 1) else j
  }

  /** The alternation of group 2, tried at position `k` */
  function ColorAt(s: string, k: nat): (r: Option<string>)
    requires k <= |s|
    ensures r.Some? ==> IsColorToken(r.value) && HasPrefixAt(s, k, r.value)
  {
    if HasPrefixAt(s, k, Placeholder) then Some(Placeholder)
    else if k + 7 <= |s| && IsHexToken(s[k..k + 7]) then Some(s[k..k + 7])
    else None
  }

  /** The directive at `i`, spaces up to `k`, a colour token at `k` and a
      `;` after it make a well-formed match in `s` at `i` */
  lemma MatchTextAt(s: string, i: nat, k: nat, color: string)
    requires HasPrefixAt(s, i, Directive) && i + |Directive| < k
    requires IsColorToken(color) && HasPrefixAt(s, k, color)
    requires k + |color| < |s| && s[k + |color|] == ';'
    requires forall x :: i + |Directive| <= x < k ==> IsSpace(s[x])
    ensures WellFormed(Match(s[i..k], color)) && HasPrefixAt(s, i, MatchText(Match(s[i..k], color)))
  {
    var j, e := i + |Directive|, k + |color|;
    assert s[i..k][..|Directive|] == s[i..j];
    assert s[i..e + 1] == s[i..k] + color + ";";
  }

  /** The pattern tried at position `i`. The whitespace run is taken whole:
      the character after it must be `{` or `#`, so no shorter run can lead
      to a match. */
  function MatchAt(s: string, i: nat): (r: Option<Match>)
    requires i <= |s|
    ensures r.Some? ==> WellFormed(r.value) && HasPrefixAt(s, i, MatchText(r.value))
  {
    if !HasPrefixAt(s, i, Directive) then None
    else
      var j := i + |Directive|;
      var k := SpaceRun(s, j);
      if k == j then None
      else
        match ColorAt(s, k)
        case None => None
        case Some(color) =>
          var e := k + |color|;
          if e < |s| && s[e] == ';' then
            MatchTextAt(s, i, k, color);
            Some(Match(s[i..k], color))
          else
            None
  }

  /** A slice of text found in `s` at `i` is the slice of `s` at the same offsets */
  lemma SliceOfFound(s: string, i: nat, t: string, a: nat, b: nat)
    requires HasPrefixAt(s, i, t) && a <= b <= |t|
    ensures s[i + a..i + b] == t[a..b]
  {
    var u := s[i..i + |t|];
    assert forall x :: a <= x < b ==> u[x] == s[i + x];
  }

  /** The group 1 part of a match found in `s` at `i`: the directive, then spaces */
  lemma MatchPrefixPart(s: string, i: nat, m: Match)
    requires WellFormed(m) && HasPrefixAt(s, i, MatchText(m))
    ensures HasPrefixAt(s, i, Directive) && s[i..i + |m.prefix|] == m.prefix
    ensures forall x :: i + |Directive| <= x < i + |m.prefix| ==> IsSpace(s[x])
  {
    var t := MatchText(m);
    var p := |m.prefix|;
    SliceOfFound(s, i, t, 0, p);
    assert t[0..p] == m.prefix;
    SliceOfFound(s, i, t, 0, |Directive|);
    assert t[0..|Directive|] == m.prefix[..|Directive|];
    forall x | i + |Directive| <= x < i + p
      ensures IsSpace(s[x])
    {
      assert s[x] == s[i..i + p][x - i];
    }
  }

  /** The rest of a match found in `s` at `i`: the colour, then `;` */
  lemma MatchColorPart(s: string, i: nat, m: Match)
    requires HasPrefixAt(s, i, MatchText(m))
    ensures HasPrefixAt(s, i + |m.prefix|, m.color)
    ensures s[i + |m.prefix| + |m.color|] == ';'
  {
    var t := MatchText(m);
    var p, c := |m.prefix|, |m.color|;
    SliceOfFound(s, i, t, p, p + c);
    assert t[p..p + c] == m.color;
    SliceOfFound(s, i, t, p + c, p + c + 1);
    assert t[p + c..p + c + 1] == [';'];
    assert s[i + p + c] == s[i + p + c..i + p + c + 1][0];
  }

  /** Every match the pattern describes is the one MatchAt finds */
  lemma MatchAtFinds(s: string, i: nat, m: Match)
    requires WellFormed(m) && HasPrefixAt(s, i, MatchText(m))
    ensures MatchAt(s, i) == Some(m)
  {
    MatchPrefixPart(s, i, m);
    MatchColorPart(s, i, m);
    var j := i + |Directive|;
    var k := i + |m.prefix|;
    assert s[k] == m.color[0];
    assert Placeholder[0] == '{';
    assert !IsSpace(s[k]);
    assert SpaceRun(s, j) == k;
    assert ColorAt(s, k) == Some(m.color);
  }

  /** MatchAt finds exactly the matches the pattern describes */
  lemma MatchAtIsRegexMatch(s: string, i: nat, m: Match)
    requires i <= |s|
    ensures MatchAt(s, i) == Some(m) <==> WellFormed(m) && HasPrefixAt(s, i, MatchText(m))
  {
    if WellFormed(m) && HasPrefixAt(s, i, MatchText(m)) {
      MatchAtFinds(s, i, m);
    }
  }

  /** Only the first character of a match is `@`, so no match starts
      inside another */
  lemma NoAtInsideMatch(m: Match)
    requires WellFormed(m)
    ensures forall x :: 0 < x < |MatchText(m)| ==> MatchText(m)[x] != '@'
  {
    var t := MatchText(m);
    forall x | 0 < x < |t| ensures t[x] != '@' {
      if x < |Directive| {
        assert t[x] == Directive[x];
      } else if x < |m.prefix| {
        assert IsSpace(t[x]);
      } else if x < |m.prefix| + |m.color| {
        assert t[x] == m.color[x - |m.prefix|];
        if m.color != Placeholder {
          assert x - |m.prefix| == 0 || IsHexDigit(m.color[1..][x - |m.prefix| - 1]);
        }
      }
    }
  }

  /** Two matches never overlap */
  lemma MatchesDoNotOverlap(s: string, i: nat, j: nat)
    requires i < j <= |s|
    requires MatchAt(s, i).Some? && MatchAt(s, j).Some?
    ensures j >= i + |MatchText(MatchAt(s, i).value)|
  {
    var t := MatchText(MatchAt(s, i).value);
    NoAtInsideMatch(MatchAt(s, i).value);
    assert s[j] == Directive[0] == '@';
    assert forall x :: i < x < i + |t| ==> s[x] == t[x - i];
  }

  /** The callback failed */
  datatype SubError =
    | UnboundColor  // line 43 reads rgba_color, which the placeholder branch never assigns

  /** The `replacement` callback of lines 26-43 */
  function Replacement(m: Match): (r: Result<string, SubError>)
    ensures r.Err? <==> m.color == Placeholder
    ensures r.Ok? ==> |r.value| > |m.prefix| && r.value[..|m.prefix|] == m.prefix && r.value[|r.value| - 1] == ';'
  {
    if m.color == Placeholder then
      Err(UnboundColor)
    else
      var rgba := match HexToRgba(m.color, Alpha)
        case Ok(t) => t
        case Err(_) => m.color;
      Ok(m.prefix + rgba + ";")
  }

  /** A hex match always converts: the `except ValueError` fallback of
      lines 39-41 is never taken, and the text becomes the prefix with its
      whitespace, the rgba text of the parsed channels, and `;` */
  lemma HexMatchConverts(m: Match)
    requires WellFormed(m) && m.color != Placeholder
    ensures HexToRgba(m.color, Alpha).Ok?
    ensures ParseRgb(m.color[1..]).Some?
    ensures Replacement(m) == Ok(m.prefix + RgbaText(ParseRgb(m.color[1..]).value, Alpha) + ";")
    ensures |Replacement(m).value| > |MatchText(m)|
  {
    var h := m.color[1..];
    assert Hashes(1) + h == m.color;
    assert IsHexDigit(h[0]);
    StripHashesOfPadded(1, h);
    var c := ParseRgb(h).value;
    assert |RgbaText(c, Alpha)| >= 18;
  }

  /** `ms` holds an answer of the pattern for every position of `s`, the
      end included, and every match it holds ends inside `s` */
  predicate Fits(s: string, ms: seq<Option<Match>>) {
    && |ms| == |s| + 1
    && forall i :: 0 <= i <= |s| && ms[i].Some? ==> i + |MatchText(ms[i].value)| <= |s|
  }

  /** Moreover every match in `ms` is a match of the pattern, and lies in
      `s` at its position */
  predicate IsMatchTable(s: string, ms: seq<Option<Match>>) {
    && Fits(s, ms)
    && forall i :: 0 <= i <= |s| && ms[i].Some? ==> WellFormed(ms[i].value) && HasPrefixAt(s, i, MatchText(ms[i].value))
  }

  /** No match in `ms` starts inside an earlier one */
  predicate Disjoint(ms: seq<Option<Match>>) {
    forall i, j :: 0 <= i < j < |ms| && ms[i].Some? && ms[j].Some? ==> j >= i + |MatchText(ms[i].value)|
  }

  /** The pattern tried at every position of the text: the answers the
      search of `re.sub` consults */
  function Matches(s: string): (ms: seq<Option<Match>>)
    ensures IsMatchTable(s, ms) && Disjoint(ms)
    ensures forall i :: 0 <= i <= |s| ==> ms[i] == MatchAt(s, i)
  {
    var ms := seq(|s| + 1, i requires 0 <= i <= |s| => MatchAt(s, i));
    forall i, j | 0 <= i < j < |ms| && ms[i].Some? && ms[j].Some?
      ensures j >= i + |MatchText(ms[i].value)|
    {
      MatchesDoNotOverlap(s, i, j);
    }
    ms
  }

  /** `x` in front of a successful text; a failure is passed on */
  function Prepend(x: string, r: Result<string, SubError>): (q: Result<string, SubError>)
    ensures q.Err? <==> r.Err?
    ensures q.Ok? ==> q.value == x + r.value
  {
    match r
    case Ok(t) => Ok(x + t)
    case Err(e) => Err(e)
  }

  lemma PrependPrepend(x: string, y: string, r: Result<string, SubError>)
    ensures Prepend(x, Prepend(y, r)) == Prepend(x + y, r)
  {
    if r.Ok? {
      assert x + (y + r.value) == (x + y) + r.value;
    }
  }

  lemma PrependNothing(r: Result<string, SubError>)
    ensures Prepend([], r) == r
  {
    if r.Ok? {
      assert [] + r.value == r.value;
    }
  }

  /** The callback `re.sub` is given: the text that replaces a match, or
      the failure it raises */
  type Callback = Match -> Result<string, SubError>

  /** The callback fails on the match found at position `j` */
  predicate FailsAt(ms: seq<Option<Match>>, f: Callback, j: int) {
    0 <= j < |ms| && ms[j].Some? && f(ms[j].value).Err?
  }

  /** Every match in `ms` that the callback accepts is replaced by a longer text */
  predicate Lengthens(ms: seq<Option<Match>>, f: Callback) {
    forall j :: 0 <= j < |ms| && ms[j].Some? && f(ms[j].value).Ok? ==> |f(ms[j].value).value| > |MatchText(ms[j].value)|
  }

  /** `pattern.sub(f, s[i:])`, given the pattern's answer `ms[j]` at every
      position `j`. The search goes left to right: where the pattern
      matches, the callback's text replaces the match and the search resumes
      after its `;`; elsewhere the character is copied and the search moves
      on by one. A failing callback aborts the whole substitution. */
  function Sub(s: string, ms: seq<Option<Match>>, f: Callback, i: nat): (r: Result<string, SubError>)
    requires Fits(s, ms) && i <= |s|
    ensures r.Err? ==> exists j :: i <= j < |s| && FailsAt(ms, f, j)
    decreases |s| - i
  {
    if i == |s| then
      Ok([])
    else
      match ms[i]
      case None => Prepend([s[i]], Sub(s, ms, f, i + 1))
      case Some(m) =>
        match f(m)
        case Err(e) =>
          assert FailsAt(ms, f, i);
          Err(e)
        case Ok(t) => Prepend(t, Sub(s, ms, f, i + |MatchText(m)|))
  }

  /** Text in which the pattern does not match is copied as it is: from `i`
      to `j` the result is `s[i..j]` followed by the result from `j` */
  lemma {:induction false} SubCopiesGap(s: string, ms: seq<Option<Match>>, f: Callback, i: nat, j: nat)
    requires Fits(s, ms) && i <= j <= |s|
    requires forall x :: i <= x < j ==> ms[x].None?
    ensures Sub(s, ms, f, i) == Prepend(s[i..j], Sub(s, ms, f, j))
    decreases j - i
  {
    if i < j {
      SubCopiesGap(s, ms, f, i + 1, j);
      assert Sub(s, ms, f, i) == Prepend([s[i]], Sub(s, ms, f, i + 1));
      assert s[i..j] == [s[i]] + s[i + 1..j];
      PrependPrepend([s[i]], s[i + 1..j], Sub(s, ms, f, j));
    } else {
      assert s[i..j] == [];
      PrependNothing(Sub(s, ms, f, j));
    }
  }

  /** A text in which the pattern matches nowhere is returned unchanged */
  lemma SubWithoutMatches(s: string, ms: seq<Option<Match>>, f: Callback, i: nat)
    requires Fits(s, ms) && i <= |s|
    requires forall x :: i <= x < |s| ==> ms[x].None?
    ensures Sub(s, ms, f, i) == Ok(s[i..])
  {
    SubCopiesGap(s, ms, f, i, |s|);
    assert Sub(s, ms, f, |s|) == Ok([]);
    assert s[i..|s|] + [] == s[i..];
  }

  /** The text up to the next match is copied, the match is replaced by the
      callback's text, and the search resumes after the match */
  lemma SubReplacesNextMatch(s: string, ms: seq<Option<Match>>, f: Callback, i: nat, j: nat)
    requires Fits(s, ms) && i <= j < |s| && ms[j].Some? && f(ms[j].value).Ok?
    requires forall x :: i <= x < j ==> ms[x].None?
    ensures Sub(s, ms, f, i) == Prepend(s[i..j] + f(ms[j].value).value, Sub(s, ms, f, j + |MatchText(ms[j].value)|))
  {
    var m := ms[j].value;
    SubCopiesGap(s, ms, f, i, j);
    assert Sub(s, ms, f, j) == Prepend(f(m).value, Sub(s, ms, f, j + |MatchText(m)|));
    PrependPrepend(s[i..j], f(m).value, Sub(s, ms, f, j + |MatchText(m)|));
  }

  /** With disjoint matches the search meets every match: a callback
      failing on the match at `j` makes the substitution fail */
  lemma {:induction false} SubMeetsFailure(s: string, ms: seq<Option<Match>>, f: Callback, i: nat, j: nat)
    requires Fits(s, ms) && Disjoint(ms) && i <= j < |s| && FailsAt(ms, f, j)
    ensures Sub(s, ms, f, i).Err?
    decreases |s| - i
  {
    if ms[i].None? {
      SubMeetsFailure(s, ms, f, i + 1, j);
    } else if f(ms[i].value).Ok? {
      var n := i + |MatchText(ms[i].value)|;
      assert n <= j;
      SubMeetsFailure(s, ms, f, n, j);
    }
  }

  /** So the substitution fails exactly when the callback fails on one of
      the matches */
  lemma SubFailsIff(s: string, ms: seq<Option<Match>>, f: Callback, i: nat)
    requires Fits(s, ms) && Disjoint(ms) && i <= |s|
    ensures Sub(s, ms, f, i).Err? <==> exists j :: i <= j < |s| && FailsAt(ms, f, j)
  {
    forall j | i <= j < |s| && FailsAt(ms, f, j)
      ensures Sub(s, ms, f, i).Err?
    {
      SubMeetsFailure(s, ms, f, i, j);
    }
  }

  /** A successful substitution never shortens the text when the callback
      lengthens every match... */
  lemma {:induction false} SubNotShorter(s: string, ms: seq<Option<Match>>, f: Callback, i: nat)
    requires Fits(s, ms) && Lengthens(ms, f) && i <= |s|
    requires Sub(s, ms, f, i).Ok?
    ensures |Sub(s, ms, f, i).value| >= |s| - i
    decreases |s| - i
  {
    if i < |s| {
      if ms[i].None? {
        SubNotShorter(s, ms, f, i + 1);
        assert Sub(s, ms, f, i).value == [s[i]] + Sub(s, ms, f, i + 1).value;
      } else {
        var m := ms[i].value;
        var n := i + |MatchText(m)|;
        SubNotShorter(s, ms, f, n);
        assert Sub(s, ms, f, i).value == f(m).value + Sub(s, ms, f, n).value;
      }
    }
  }

  /** ...and lengthens it when the pattern matches at some `j` */
  lemma {:induction false} SubLonger(s: string, ms: seq<Option<Match>>, f: Callback, i: nat, j: nat)
    requires Fits(s, ms) && Lengthens(ms, f) && i <= j < |s| && ms[j].Some?
    requires Sub(s, ms, f, i).Ok?
    ensures |Sub(s, ms, f, i).value| > |s| - i
    decreases |s| - i
  {
    if ms[i].None? {
      SubLonger(s, ms, f, i + 1, j);
      assert Sub(s, ms, f, i).value == [s[i]] + Sub(s, ms, f, i + 1).value;
    } else {
      var m := ms[i].value;
      var n := i + |MatchText(m)|;
      SubNotShorter(s, ms, f, n);
      assert Sub(s, ms, f, i).value == f(m).value + Sub(s, ms, f, n).value;
    }
  }

  /** `pattern.sub(replacement, content)` at line 45: the new text, or the
      failure that the placeholder branch raises. It fails only where a
      placeholder declaration is matched, and a new text is never shorter
      than the old one. */
  function ProcessContent(content: string): (r: Result<string, SubError>)
    ensures r.Err? ==> exists i :: 0 <= i <= |content| && HasPlaceholderAt(content, i)
    ensures r.Ok? ==> |r.value| >= |content|
  {
    SubstitutionOutcome(content);
    Sub(content, Matches(content), Replacement, 0)
  }

  /** What the substitution with the callback of lines 26-43 can produce */
  lemma SubstitutionOutcome(s: string)
    ensures var r := Sub(s, Matches(s), Replacement, 0);
      && (r.Err? ==> exists i :: 0 <= i <= |s| && HasPlaceholderAt(s, i))
      && (r.Ok? ==> |r.value| >= |s|)
  {
    var ms := Matches(s);
    var r := Sub(s, ms, Replacement, 0);
    if r.Err? {
      var j :| 0 <= j < |s| && FailsAt(ms, Replacement, j);
      assert HasPlaceholderAt(s, j);
    } else {
      ReplacementLengthens(s, ms);
      SubNotShorter(s, ms, Replacement, 0);
    }
  }

  /** The callback of lines 26-43 lengthens every match the pattern finds */
  lemma ReplacementLengthens(s: string, ms: seq<Option<Match>>)
    requires IsMatchTable(s, ms)
    ensures Lengthens(ms, Replacement)
  {
    forall j | 0 <= j < |ms| && ms[j].Some? && Replacement(ms[j].value).Ok?
      ensures |Replacement(ms[j].value).value| > |MatchText(ms[j].value)|
    {
      HexMatchConverts(ms[j].value);
    }
  }

  /** No match of the pattern anywhere in the text */
  predicate NoDeclaration(s: string) {
    forall i :: 0 <= i <= |s| ==> MatchAt(s, i).None?
  }

  /** A text in which the pattern matches nowhere comes back unchanged */
  lemma NoDeclarationUnchanged(s: string)
    requires NoDeclaration(s)
    ensures ProcessContent(s) == Ok(s)
  {
    var ms := Matches(s);
    SubWithoutMatches(s, ms, Replacement, 0);
  }

  /** A match at `j` changes the text, or makes the substitution fail */
  lemma DeclarationChanges(s: string, j: nat)
    requires j <= |s| && MatchAt(s, j).Some?
    ensures ProcessContent(s) != Ok(s)
  {
    var ms := Matches(s);
    if ProcessContent(s).Ok? {
      assert j < |s| && ms[j].Some?;
      ReplacementLengthens(s, ms);
      SubLonger(s, ms, Replacement, 0, j);
    }
  }

  /** The text comes back unchanged exactly when the pattern matches nowhere */
  lemma UnchangedIffNoDeclaration(s: string)
    ensures ProcessContent(s) == Ok(s) <==> NoDeclaration(s)
  {
    if NoDeclaration(s) {
      NoDeclarationUnchanged(s);
    } else {
      var j :| 0 <= j <= |s| && MatchAt(s, j).Some?;
      DeclarationChanges(s, j);
    }
  }

  /** The placeholder is matched at position `i` */
  predicate HasPlaceholderAt(s: string, i: nat) {
    i <= |s| && MatchAt(s, i).Some? && MatchAt(s, i).value.color == Placeholder
  }

  /** The substitution fails, and nothing is written, exactly when some
      `@define-color background {{background}};` declaration is in the text */
  lemma FailsIffPlaceholder(s: string)
    ensures ProcessContent(s).Err? <==> exists i :: 0 <= i <= |s| && HasPlaceholderAt(s, i)
  {
    var ms := Matches(s);
    SubFailsIff(s, ms, Replacement, 0);
    if exists i :: 0 <= i <= |s| && HasPlaceholderAt(s, i) {
      var i :| 0 <= i <= |s| && HasPlaceholderAt(s, i);
      assert i < |s| && FailsAt(ms, Replacement, i);
    }
    if ProcessContent(s).Err? {
      var j :| 0 <= j < |s| && FailsAt(ms, Replacement, j);
      assert HasPlaceholderAt(s, j);
    }
  }

  /** A text that is one whole match becomes the callback's text */
  lemma SubOfOneMatch(s: string, ms: seq<Option<Match>>, f: Callback)
    requires Fits(s, ms) && |s| > 0 && ms[0].Some? && MatchText(ms[0].value) == s
    ensures Sub(s, ms, f, 0) == f(ms[0].value)
  {
    assert Sub(s, ms, f, |s|) == Ok([]);
    if f(ms[0].value).Ok? {
      assert f(ms[0].value).value + [] == f(ms[0].value).value;
    }
  }

  lemma ExampleText()
    ensures "@define-color background " + "rgba(17, 34, 51, 0.7)" + ";" == "@define-color background rgba(17, 34, 51, 0.7);"
  {
  }

  /** `@define-color background #112233;` becomes
      `@define-color background rgba(17, 34, 51, 0.7);` */
  lemma ProcessContentExample()
    ensures ProcessContent("@define-color background #112233;")
         == Ok("@define-color background rgba(17, 34, 51, 0.7);")
  {
    var s := "@define-color background #112233;";
    var m := Match("@define-color background ", "#112233");
    assert Matches(s)[0] == Some(m) && MatchText(m) == s by {
      assert WellFormed(m);
      assert MatchText(m) == s;
      MatchAtIsRegexMatch(s, 0, m);
    }
    SubOfOneMatch(s, Matches(s), Replacement);
    assert HexToRgba(m.color, Alpha) == Ok("rgba(17, 34, 51, 0.7)") by {
      HexToRgbaExample();
    }
    ExampleText();
  }

  /** `@define-color background {{background}};` makes the substitution fail */
  lemma PlaceholderExample()
    ensures ProcessContent("@define-color background {{background}};").Err?
  {
    var s := "@define-color background {{background}};";
    var m := Match("@define-color background ", Placeholder);
    assert Matches(s)[0] == Some(m) && MatchText(m) == s by {
      assert WellFormed(m);
      assert MatchText(m) == s;
      MatchAtIsRegexMatch(s, 0, m);
    }
    SubOfOneMatch(s, Matches(s), Replacement);
  }
}
