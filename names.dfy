/**
 * Player-name cleaning and OCR alias resolution (`cleanName`,
 * `normalizeForAliasKey` and `NAME_ALIASES` in src/app/page.tsx:89-120).
 *
 * Each regular-expression step is an explicit string function. The patterns
 * have no `u` flag, so `\b` and `\w` are ASCII, `\d` is `[0-9]`, and the `i`
 * flag folds ASCII letters only. Every quantified part of the annotation
 * pattern is followed by a literal that cannot start it, so the greedy match at
 * a position is unique and is computed directly.
 */
module Names {
  import opened Wrappers
  import opened Text

  /** `NAME_ALIASES`: (lower-case raw variant, canonical name), in declaration order. */
  const NameAliases: seq<(string, string)> := [
    ("sqgeking", "SØGEKING"),
    ("upnice) i238", "Up n1ce小皮鞭"),
    ("upnice)\\ i238", "Up n1ce小皮鞭"),
    ("up n1ce小皮鞭", "Up n1ce小皮鞭")
  ]

  // ----- `^[@\s]+` (line 105) -----

  predicate IsLeadingMarker(c: char) {
    c == '@' || IsSpace(c)
  }

  /** Removes the leading run of `@` and white space. */
  function DropLeadingMarkers(s: string): (r: string)
    ensures |r| <= |s|
  {
    if s != [] && IsLeadingMarker(s[0]) then DropLeadingMarkers(s[1..]) else s
  }

  /** The strip cuts a run of `@` and white space off the front and stops at the first other character. */
  lemma {:induction false} DropLeadingMarkersSpec(s: string)
    ensures var r := DropLeadingMarkers(s);
      && r == s[|s| - |r|..]
      && (forall i :: 0 <= i < |s| - |r| ==> IsLeadingMarker(s[i]))
      && (r == [] || !IsLeadingMarker(r[0]))
  {
    if s != [] && IsLeadingMarker(s[0]) {
      DropLeadingMarkersSpec(s[1..]);
    }
  }

  // ----- `\bpersonal\s*score\s*:\s*[\d,]+` (line 106) and `\bpersonal\s*:\s*[\d,]+` (line 107) -----

  /** The two score annotations a raw name may carry. */
  datatype Annotation = WithScore | Plain

  /** The characters of `\w`, which decide where `\b` holds. */
  predicate IsWordChar(c: char) {
    'a' <= c <= 'z' || 'A' <= c <= 'Z' || '0' <= c <= '9' || c == '_'
  }

  /** `\b` holds at position `i`. */
  predicate AtWordBoundary(s: string, i: nat)
    requires i <= |s|
  {
    (i > 0 && IsWordChar(s[i - 1])) != (i < |s| && IsWordChar(s[i]))
  }

  /** The lower-case word `w` occurs at position `i`, ignoring the case of ASCII letters. */
  predicate WordAt(s: string, i: nat, w: string) {
    i + |w| <= |s| && forall k :: 0 <= k < |w| ==> LowerChar(s[i + k]) == w[k]
  }

  /** The end of the run of white space that starts at `i` (`\s*`). */
  function SkipSpaces(s: string, i: nat): (j: nat)
    requires i <= |s|
    ensures i <= j <= |s|
    ensures forall k :: i <= k < j ==> IsSpace(s[k])
    ensures j == |s| || !IsSpace(s[j])
    decreases |s| - i
  {
    if i < |s| && IsSpace(s[i]) then SkipSpaces(s, i + 1) else i
  }

  /** The characters of `[\d,]`. */
  predicate IsAmountChar(c: char) {
    IsDigit(c) || c == ','
  }

  /** The end of the run of digits and commas that starts at `i` (`[\d,]*`). */
  function SkipAmount(s: string, i: nat): (j: nat)
    requires i <= |s|
    ensures i <= j <= |s|
    ensures forall k :: i <= k < j ==> IsAmountChar(s[k])
    ensures j == |s| || !IsAmountChar(s[j])
    decreases |s| - i
  {
    if i < |s| && IsAmountChar(s[i]) then SkipAmount(s, i + 1) else i
  }

  /** `[\d,]+` from position `n`: the end of a non-empty run of digits and commas. */
  function AmountEnd(s: string, n: nat): (end: Option<nat>)
    requires n <= |s|
    ensures end.Some? ==> n < end.value <= |s| && IsAmountChar(s[end.value - 1])
  {
    var e := SkipAmount(s, n);
    if e == n then None else Some(e)
  }

  /** `:\s*[\d,]+` from position `c`. */
  function ColonAmount(s: string, c: nat): (end: Option<nat>)
    requires c <= |s|
    ensures end.Some? ==> c < end.value <= |s| && IsAmountChar(s[end.value - 1])
  {
    if c == |s| || s[c] != ':' then None
    else AmountEnd(s, SkipSpaces(s, c + 1))
  }

  /** The rest of an annotation of kind `a` after `personal\s*`, which ends at `j`. */
  function AfterPersonal(s: string, j: nat, a: Annotation): (end: Option<nat>)
    requires j <= |s|
    ensures end.Some? ==> j < end.value <= |s| && IsAmountChar(s[end.value - 1])
  {
    if a == Plain then ColonAmount(s, j)
    else if WordAt(s, j, "score") then ColonAmount(s, SkipSpaces(s, j + 5))
    else None
  }

  /** The end of the annotation that starts at position `i`, if one does. */
  function MatchAt(s: string, i: nat, a: Annotation): (end: Option<nat>)
    requires i <= |s|
    ensures end.Some? ==> i + 8 < end.value <= |s| && IsAmountChar(s[end.value - 1])
    ensures end.Some? ==> WordAt(s, i, "personal") && AtWordBoundary(s, i)
  {
    if AtWordBoundary(s, i) && WordAt(s, i, "personal") then AfterPersonal(s, SkipSpaces(s, i + 8), a)
    else None
  }

  /** `s.replace(pattern, "")` with the `g` flag, scanning from position `i`. */
  function RemoveFrom(s: string, i: nat, a: Annotation): (r: string)
    requires i <= |s|
    ensures |r| <= |s| - i
    decreases |s| - i
  {
    if i == |s| then []
    else match MatchAt(s, i, a)
      case Some(e) => RemoveFrom(s, e, a)
      case None => [s[i]] + RemoveFrom(s, i + 1, a)
  }

  /** Removes every annotation of kind `a`. */
  function RemoveAnnotations(s: string, a: Annotation): string {
    RemoveFrom(s, 0, a)
  }

  /** A string in which no annotation starts is left unchanged. */
  lemma {:induction false} RemoveFromNoMatch(s: string, i: nat, a: Annotation)
    requires i <= |s|
    requires forall k :: i <= k < |s| ==> MatchAt(s, k, a).None?
    ensures RemoveFrom(s, i, a) == s[i..]
    decreases |s| - i
  {
    if i < |s| {
      RemoveFromNoMatch(s, i + 1, a);
      assert s[i..] == [s[i]] + s[i + 1..];
    }
  }

  /** An annotation starts with `p` or `P`. */
  lemma MatchStartsWithP(s: string, i: nat, a: Annotation)
    requires i <= |s| && MatchAt(s, i, a).Some?
    ensures i < |s| && LowerChar(s[i]) == 'p' && (s[i] == 'p' || s[i] == 'P')
  {
    assert WordAt(s, i, "personal");
    assert LowerChar(s[i + 0]) == "personal"[0];
  }

  // ----- `[\s\-—|:]+$` (line 108) -----

  predicate IsTrailingSeparator(c: char) {
    IsSpace(c) || c == '-' || c == '\U{2014}' || c == '|' || c == ':'
  }

  /** Removes the trailing run of white space, `-`, `—`, `|` and `:`. */
  function DropTrailingSeparators(s: string): (r: string)
    ensures |r| <= |s|
  {
    if s != [] && IsTrailingSeparator(s[|s| - 1]) then DropTrailingSeparators(s[..|s| - 1]) else s
  }

  /** The strip cuts a run of separators off the back and stops at the last other character. */
  lemma {:induction false} DropTrailingSeparatorsSpec(s: string)
    ensures var r := DropTrailingSeparators(s);
      && r == s[..|r|]
      && (forall i :: |r| <= i < |s| ==> IsTrailingSeparator(s[i]))
      && (r == [] || !IsTrailingSeparator(r[|r| - 1]))
  {
    if s != [] && IsTrailingSeparator(s[|s| - 1]) {
      DropTrailingSeparatorsSpec(s[..|s| - 1]);
    }
  }

  /** Lines 104-108: the raw name after the four clean-up steps, before alias resolution. */
  function Stripped(raw: string): string {
    var s1 := Trim(raw);
    var s2 := DropLeadingMarkers(s1);
    var s3 := Trim(RemoveAnnotations(s2, WithScore));
    var s4 := Trim(RemoveAnnotations(s3, Plain));
    Trim(DropTrailingSeparators(s4))
  }

  /** No surrounding white space and no trailing separator. */
  predicate Tidy(s: string) {
    s == [] || (!IsSpace(s[0]) && !IsTrailingSeparator(s[|s| - 1]))
  }

  lemma StrippedIsTidy(raw: string)
    ensures Tidy(Stripped(raw))
  {
    var s4 := Trim(RemoveAnnotations(Trim(RemoveAnnotations(DropLeadingMarkers(Trim(raw)), WithScore)), Plain));
    var t := DropTrailingSeparators(s4);
    DropTrailingSeparatorsSpec(s4);
    TrimShape(t);
    if t != [] {
      TrimKeepsLast(t);
    }
  }

  // ----- `normalizeForAliasKey` (lines 96-101) -----

  /** `s.replace(/\s+/g, " ")`: every run of white space becomes one space. */
  function CollapseSpaces(s: string): (r: string)
    ensures (r == []) == (s == [])
    ensures s != [] ==> r[0] == if IsSpace(s[0]) then ' ' else s[0]
    ensures forall i :: 0 <= i < |r| && IsSpace(r[i]) ==> r[i] == ' '
    ensures forall i :: 0 <= i < |r| - 1 ==> !(IsSpace(r[i]) && IsSpace(r[i + 1]))
    decreases |s|
  {
    if s == [] then []
    else if IsSpace(s[0]) then
      TrimStartSpec(s[1..]);
      var rest := CollapseSpaces(TrimStart(s[1..]));
      assert rest == [] || !IsSpace(rest[0]);
      [' '] + rest
    else
      var rest := CollapseSpaces(s[1..]);
      assert forall i :: 1 <= i < |rest| + 1 ==> ([s[0]] + rest)[i] == rest[i - 1];
      [s[0]] + rest
  }

  /**
   * A reading of `/\s+/g → " "` one character at a time: a white-space
   * character becomes a space when it starts a run (`inRun` is false) and
   * vanishes inside one; every other character is kept.
   */
  function CollapseRuns(s: string, inRun: bool): string {
    if s == [] then []
    else if IsSpace(s[0]) then (if inRun then [] else " ") + CollapseRuns(s[1..], true)
    else [s[0]] + CollapseRuns(s[1..], false)
  }

  /** Inside a run, the white space that follows changes nothing. */
  lemma {:induction false} CollapseRunsSkip(s: string)
    ensures CollapseRuns(s, true) == CollapseRuns(TrimStart(s), true)
  {
    if s != [] && IsSpace(s[0]) {
      CollapseRunsSkip(s[1..]);
    }
  }

  /** Before a character that is not white space, being in a run or not makes no difference. */
  lemma CollapseRunsEnd(s: string)
    requires s == [] || !IsSpace(s[0])
    ensures CollapseRuns(s, true) == CollapseRuns(s, false)
  {
  }

  /** `CollapseSpaces` is the run-by-run collapse started outside a run. */
  lemma {:induction false} CollapseSpacesRuns(s: string)
    ensures CollapseSpaces(s) == CollapseRuns(s, false)
    decreases |s|
  {
    if s != [] {
      if IsSpace(s[0]) {
        var t := TrimStart(s[1..]);
        TrimStartSpec(s[1..]);
        CollapseSpacesRuns(t);
        CollapseRunsEnd(t);
        CollapseRunsSkip(s[1..]);
      } else {
        CollapseSpacesRuns(s[1..]);
      }
    }
  }

  /** The characters of `s` that are not white space, in order. */
  function NonSpace(s: string): string {
    if s == [] then [] else (if IsSpace(s[0]) then [] else [s[0]]) + NonSpace(s[1..])
  }

  lemma {:induction false} CollapseRunsNonSpace(s: string, inRun: bool)
    ensures NonSpace(CollapseRuns(s, inRun)) == NonSpace(s)
  {
    if s != [] {
      CollapseRunsNonSpace(s[1..], IsSpace(s[0]));
      var rest := CollapseRuns(s[1..], IsSpace(s[0]));
      if IsSpace(s[0]) {
        if inRun {
          assert [] + rest == rest;
        } else {
          assert IsSpace(' ') && (" " + rest)[0] == ' ';
          assert (" " + rest)[1..] == rest;
        }
      } else {
        assert ([s[0]] + rest)[1..] == rest;
      }
    }
  }

  /**
   * Collapsing keeps the text: the characters that are not white space stay,
   * in their order, and each run of white space becomes exactly one space.
   */
  lemma CollapseSpacesSpec(s: string)
    ensures CollapseSpaces(s) == CollapseRuns(s, false)
    ensures NonSpace(CollapseSpaces(s)) == NonSpace(s)
  {
    CollapseSpacesRuns(s);
    CollapseRunsNonSpace(s, false);
  }

  /** A string whose white space is single spaces between other characters collapses to itself. */
  lemma {:induction false} CollapseRunsSingle(s: string, inRun: bool)
    requires forall k :: 0 <= k < |s| && IsSpace(s[k]) ==> s[k] == ' '
    requires forall k :: 0 < k < |s| ==> !(IsSpace(s[k - 1]) && IsSpace(s[k]))
    requires inRun ==> s == [] || !IsSpace(s[0])
    ensures CollapseRuns(s, inRun) == s
  {
    if s != [] {
      var t := s[1..];
      assert forall k :: 0 <= k < |t| ==> t[k] == s[k + 1];
      CollapseRunsSingle(t, IsSpace(s[0]));
      assert s == [s[0]] + t;
    }
  }

  /** `s.replace(/[\\\/]/g, "")`. */
  function RemoveSlashes(s: string): (r: string)
    ensures |r| <= |s|
  {
    if s == [] then []
    else if s[0] == '\\' || s[0] == '/' then RemoveSlashes(s[1..])
    else [s[0]] + RemoveSlashes(s[1..])
  }

  /** The two lookup keys of a cleaned name. */
  datatype AliasKeys = AliasKeys(lower: string, slashless: string)

  function NormalizeForAliasKey(s: string): AliasKeys {
    var lower := Lower(Trim(CollapseSpaces(s)));
    AliasKeys(lower, RemoveSlashes(lower))
  }

  /** Line 115: the form a table key takes for the slash-free comparison. */
  function SlashlessKey(k: string): string {
    RemoveSlashes(Lower(k))
  }

  /** An alias table: (raw variant, canonical name) pairs in enumeration order. */
  type AliasTable = seq<(string, string)>

  /** `table[key]` on the table's own keys, searching from entry `i`. */
  function FindKey(table: AliasTable, key: string, i: nat): Option<string>
    decreases |table| - i
  {
    if i >= |table| then None
    else if table[i].0 == key then Some(table[i].1)
    else FindKey(table, key, i + 1)
  }

  /** Lines 114-117: the first entry whose slash-free key equals `slashless`, from entry `i`. */
  function FindSlashless(table: AliasTable, slashless: string, i: nat): Option<string>
    decreases |table| - i
  {
    if i >= |table| then None
    else if SlashlessKey(table[i].0) == slashless then Some(table[i].1)
    else FindSlashless(table, slashless, i + 1)
  }

  /** Lines 110-119: the alias lookup applied to the cleaned string `s`. */
  function Resolve(table: AliasTable, s: string): string {
    var keys := NormalizeForAliasKey(s);
    var hit := FindKey(table, keys.lower, 0);
    if hit.Some? && hit.value != "" then hit.value
    else FindSlashless(table, keys.slashless, 0).GetOr(s)
  }

  /** `cleanName` against a given alias table, read through its own keys only. */
  function CleanWith(table: AliasTable, raw: string): string {
    Resolve(table, Stripped(raw))
  }

  /**
   * `cleanName(raw)` as a function of the raw name (see `CleanAsWritten` for
   * the table lookup as the code writes it).
   */
  function Clean(raw: string): string {
    CleanWith(NameAliases, raw)
  }

  /** Lines 103-120, step by step, against the alias table `table`; it computes `CleanWith`. */
  method CleanName(table: AliasTable, raw: string) returns (name: string)
    ensures name == CleanWith(table, raw)
  {
    var s := Trim(raw);
    s := DropLeadingMarkers(s);
    s := Trim(RemoveAnnotations(s, WithScore));
    s := Trim(RemoveAnnotations(s, Plain));
    s := Trim(DropTrailingSeparators(s));
    var keys := NormalizeForAliasKey(s);
    var hit := FindKey(table, keys.lower, 0);
    if hit.Some? && hit.value != "" {
      return hit.value;
    }
    for i := 0 to |table|
      invariant FindSlashless(table, keys.slashless, i) == FindSlashless(table, keys.slashless, 0)
    {
      var entry := table[i];
      if SlashlessKey(entry.0) == keys.slashless {
        return entry.1;
      }
    }
    return s;
  }

  // ----- what `cleanName` promises -----

  /** Keys already in lower case, non-empty names, and entries that agree without slashes agree on the name. */
  ghost predicate ConsistentTable(table: AliasTable) {
    && (forall i :: 0 <= i < |table| ==> Lower(table[i].0) == table[i].0 && table[i].1 != "")
    && (forall i, j ::
          (0 <= i < |table| && 0 <= j < |table| && SlashlessKey(table[i].0) == SlashlessKey(table[j].0))
          ==> table[i].1 == table[j].1)
  }

  lemma {:induction false} FindKeyFound(table: AliasTable, key: string, i: nat) returns (j: nat)
    requires FindKey(table, key, i).Some?
    ensures i <= j < |table| && table[j].0 == key && FindKey(table, key, i) == Some(table[j].1)
    decreases |table| - i
  {
    if table[i].0 == key {
      j := i;
    } else {
      j := FindKeyFound(table, key, i + 1);
    }
  }

  lemma {:induction false} FindSlashlessFound(table: AliasTable, slashless: string, i: nat) returns (j: nat)
    requires FindSlashless(table, slashless, i).Some?
    ensures i <= j < |table| && SlashlessKey(table[j].0) == slashless
    ensures FindSlashless(table, slashless, i) == Some(table[j].1)
    decreases |table| - i
  {
    if SlashlessKey(table[i].0) == slashless {
      j := i;
    } else {
      j := FindSlashlessFound(table, slashless, i + 1);
    }
  }

  lemma {:induction false} FindSlashlessSome(table: AliasTable, slashless: string, i: nat, j: nat)
    requires i <= j < |table| && SlashlessKey(table[j].0) == slashless
    ensures FindSlashless(table, slashless, i).Some?
    decreases |table| - i
  {
    if SlashlessKey(table[i].0) != slashless {
      FindSlashlessSome(table, slashless, i + 1, j);
    }
  }

  /** The cleaned form of `raw` matches entry `i` once case, white space and slashes are ignored. */
  predicate AliasMatches(table: AliasTable, raw: string, i: int) {
    ResolvesTo(table, Stripped(raw), i)
  }

  /**
   * With a consistent table, cleaning either resolves an alias, and then
   * returns that alias's canonical name whichever matching entry is consulted,
   * or returns the cleaned string, which has no surrounding white space and no
   * trailing `-`, `—`, `|` or `:`.
   */
  lemma CleanWithSpec(table: AliasTable, raw: string)
    requires ConsistentTable(table)
    ensures forall i :: AliasMatches(table, raw, i) ==> CleanWith(table, raw) == table[i].1
    ensures (exists i :: AliasMatches(table, raw, i)) ||
            (CleanWith(table, raw) == Stripped(raw) && Tidy(CleanWith(table, raw)))
  {
    StrippedIsTidy(raw);
    var s := Stripped(raw);
    ResolveSpec(table, s);
    if exists i :: ResolvesTo(table, s, i) {
      var i :| ResolvesTo(table, s, i);
      assert AliasMatches(table, raw, i);
    }
  }

  /** Entry `i`'s key matches `s` once case, white space and slashes are ignored. */
  predicate ResolvesTo(table: AliasTable, s: string, i: int) {
    0 <= i < |table| && NormalizeForAliasKey(s).slashless == SlashlessKey(table[i].0)
  }

  /** The lookup half of `CleanWithSpec`, on the cleaned string. */
  lemma ResolveSpec(table: AliasTable, s: string)
    requires ConsistentTable(table)
    ensures forall i :: ResolvesTo(table, s, i) ==> Resolve(table, s) == table[i].1
    ensures (exists i :: ResolvesTo(table, s, i)) || Resolve(table, s) == s
  {
    var keys := NormalizeForAliasKey(s);
    if FindKey(table, keys.lower, 0).Some? {
      var j := FindKeyFound(table, keys.lower, 0);
      assert SlashlessKey(table[j].0) == keys.slashless;
      assert ResolvesTo(table, s, j);
    } else if FindSlashless(table, keys.slashless, 0).Some? {
      var j := FindSlashlessFound(table, keys.slashless, 0);
      assert ResolvesTo(table, s, j);
    } else {
      forall i | ResolvesTo(table, s, i) ensures false {
        FindSlashlessSome(table, keys.slashless, 0, i);
      }
    }
  }

  lemma {:induction false} RemoveSlashesAppend(a: string, b: string)
    ensures RemoveSlashes(a + b) == RemoveSlashes(a) + RemoveSlashes(b)
  {
    if a == [] {
      assert a + b == b;
    } else {
      assert (a + b)[1..] == a[1..] + b;
      RemoveSlashesAppend(a[1..], b);
    }
  }

  lemma {:induction false} RemoveSlashesNone(s: string)
    requires '\\' !in s && '/' !in s
    ensures RemoveSlashes(s) == s
  {
    if s != [] {
      assert s[0] in s;
      RemoveSlashesNone(s[1..]);
    }
  }

  /** A key whose first character is not a slash keeps that character, lower-cased, at the front. */
  lemma SlashlessKeyHead(k: string)
    requires k != [] && LowerChar(k[0]) != '\\' && LowerChar(k[0]) != '/'
    ensures SlashlessKey(k) != [] && SlashlessKey(k)[0] == LowerChar(k[0])
  {
    var l := Lower(k);
    assert l[0] == LowerChar(k[0]);
  }

  /** The slash-free key of entry 0 starts with `s`; those of entries 1-3 start with `u`. */
  lemma NameAliasHead0()
    ensures SlashlessKey(NameAliases[0].0) != [] && SlashlessKey(NameAliases[0].0)[0] == 's'
  {
    SlashlessKeyHead(NameAliases[0].0);
  }

  lemma NameAliasHead1()
    ensures SlashlessKey(NameAliases[1].0) != [] && SlashlessKey(NameAliases[1].0)[0] == 'u'
  {
    SlashlessKeyHead(NameAliases[1].0);
  }

  lemma NameAliasHead2()
    ensures SlashlessKey(NameAliases[2].0) != [] && SlashlessKey(NameAliases[2].0)[0] == 'u'
  {
    SlashlessKeyHead(NameAliases[2].0);
  }

  lemma NameAliasHead3()
    ensures SlashlessKey(NameAliases[3].0) != [] && SlashlessKey(NameAliases[3].0)[0] == 'u'
  {
    SlashlessKeyHead(NameAliases[3].0);
  }

  /** A string none of whose characters lower-cases to something else is its own lower-case form. */
  lemma LowerFixed(k: string)
    requires forall i :: 0 <= i < |k| ==> LowerChar(k[i]) == k[i]
    ensures Lower(k) == k
  {
  }

  lemma NameAliasKeyLower(i: int)
    requires 0 <= i < |NameAliases|
    ensures Lower(NameAliases[i].0) == NameAliases[i].0
  {
    var k := NameAliases[i].0;
    forall j | 0 <= j < |k| ensures LowerChar(k[j]) == k[j] {
      assert !('A' <= k[j] <= 'Z') && !('\U{00C0}' <= k[j] <= '\U{00DE}');
    }
    LowerFixed(k);
  }

  /** Only the slash-free key of entry 0 starts with `s`. */
  lemma NameAliasHead(i: int)
    requires 0 <= i < |NameAliases|
    ensures SlashlessKey(NameAliases[i].0) != []
    ensures SlashlessKey(NameAliases[i].0)[0] == 's' <==> i == 0
    ensures i != 0 ==> SlashlessKey(NameAliases[i].0)[0] == 'u'
  {
    if i == 0 {
      NameAliasHead0();
    } else if i == 1 {
      NameAliasHead1();
    } else if i == 2 {
      NameAliasHead2();
    } else {
      NameAliasHead3();
    }
  }

  /**
   * A four-entry table with lower-case keys, whose last three entries share a
   * value and where only entry 0's slash-free key starts with `s`, is consistent.
   */
  lemma ConsistentByHeads(table: AliasTable)
    requires |table| == 4 && table[0].1 != "" && table[1].1 != "" && table[1].1 == table[2].1 == table[3].1
    requires forall k :: 0 <= k < 4 ==> Lower(table[k].0) == table[k].0
    requires forall k :: 0 <= k < 4 ==> SlashlessKey(table[k].0) != [] && (SlashlessKey(table[k].0)[0] == 's' <==> k == 0)
    ensures ConsistentTable(table)
  {
    forall i, j | 0 <= i < 4 && 0 <= j < 4 && SlashlessKey(table[i].0) == SlashlessKey(table[j].0)
      ensures table[i].1 == table[j].1
    {
      assert (i == 0) == (j == 0);
    }
  }

  lemma NameAliasKeysLower()
    ensures forall k :: 0 <= k < 4 ==> Lower(NameAliases[k].0) == NameAliases[k].0
  {
    forall k | 0 <= k < 4 ensures Lower(NameAliases[k].0) == NameAliases[k].0 {
      NameAliasKeyLower(k);
    }
  }

  lemma NameAliasHeads()
    ensures forall k :: 0 <= k < 4 ==>
      SlashlessKey(NameAliases[k].0) != [] && (SlashlessKey(NameAliases[k].0)[0] == 's' <==> k == 0)
  {
    forall k | 0 <= k < 4
      ensures SlashlessKey(NameAliases[k].0) != [] && (SlashlessKey(NameAliases[k].0)[0] == 's' <==> k == 0)
    {
      NameAliasHead(k);
    }
  }

  lemma NameAliasValues()
    ensures |NameAliases| == 4 && NameAliases[0].1 != "" && NameAliases[1].1 != ""
    ensures NameAliases[1].1 == NameAliases[2].1 == NameAliases[3].1
  {
  }

  /** The source's alias table is consistent: only entry 0 maps to "SØGEKING". */
  lemma NameAliasesConsistent()
    ensures ConsistentTable(NameAliases)
  {
    NameAliasValues();
    NameAliasKeysLower();
    NameAliasHeads();
    ConsistentByHeads(NameAliases);
  }

  /** `CleanWithSpec` for the source's own alias table. */
  lemma CleanSpec(raw: string)
    ensures forall i :: AliasMatches(NameAliases, raw, i) ==> Clean(raw) == NameAliases[i].1
    ensures (exists i :: AliasMatches(NameAliases, raw, i)) || (Clean(raw) == Stripped(raw) && Tidy(Clean(raw)))
  {
    NameAliasesConsistent();
    CleanWithSpec(NameAliases, raw);
  }

  // ----- names the table does not know -----

  /** Near the end of the string no annotation fits, so nothing is removed there. */
  lemma RemoveFromShort(s: string, i: nat, a: Annotation)
    requires i <= |s| <= i + 8
    ensures RemoveFrom(s, i, a) == s[i..]
  {
    RemoveFromNoMatch(s, i, a);
  }

  /** A string without white space is its own `\s+`-collapsed form. */
  lemma {:induction false} CollapseNoSpace(s: string)
    requires forall i :: 0 <= i < |s| ==> !IsSpace(s[i])
    ensures CollapseSpaces(s) == s
  {
    if s != [] {
      CollapseNoSpace(s[1..]);
      assert s == [s[0]] + s[1..];
    }
  }

  /** A table none of whose slash-free keys from entry `i` on starts like `slashless` has no slash-free match for it. */
  lemma {:induction false} NoSlashlessWithHead(table: AliasTable, slashless: string, i: nat)
    requires slashless != []
    requires forall k :: i <= k < |table| ==> SlashlessKey(table[k].0) != [] && SlashlessKey(table[k].0)[0] != slashless[0]
    ensures FindSlashless(table, slashless, i) == None
    decreases |table| - i
  {
    if i < |table| {
      NoSlashlessWithHead(table, slashless, i + 1);
    }
  }

  /** No slash-free key of the table starts with a character other than `s` or `u`. */
  lemma NoSlashlessAliasWithHead(slashless: string)
    requires slashless != [] && slashless[0] != 's' && slashless[0] != 'u'
    ensures FindSlashless(NameAliases, slashless, 0) == None
  {
    forall k | 0 <= k < |NameAliases|
      ensures SlashlessKey(NameAliases[k].0) != [] && SlashlessKey(NameAliases[k].0)[0] != slashless[0]
    {
      NameAliasHead(k);
    }
    NoSlashlessWithHead(NameAliases, slashless, 0);
  }

  /** No key of the table starts with a character other than `s` or `u`. */
  lemma NoAliasKeyWithHead(key: string, i: nat)
    requires key != [] && key[0] != 's' && key[0] != 'u'
    ensures FindKey(NameAliases, key, i) == None
    decreases |NameAliases| - i
  {
    if i < |NameAliases| {
      assert NameAliases[i].0[0] == 's' || NameAliases[i].0[0] == 'u';
      NoAliasKeyWithHead(key, i + 1);
    }
  }

  /**
   * A cleaned name without white space whose first letter, ignoring case, is
   * not `s` or `u` (nor a slash) resolves to no alias: `cleanName` returns it as is.
   */
  lemma ResolveUnaliased(s: string)
    requires s != [] && forall i :: 0 <= i < |s| ==> !IsSpace(s[i])
    requires var c := LowerChar(s[0]); c != 's' && c != 'u' && c != '\\' && c != '/'
    ensures Resolve(NameAliases, s) == s
  {
    CollapseNoSpace(s);
    TrimOfTidy(s);
    var keys := NormalizeForAliasKey(s);
    assert keys.lower == Lower(s);
    SlashlessKeyHead(s);
    NoAliasKeyWithHead(keys.lower, 0);
    NoSlashlessAliasWithHead(keys.slashless);
  }

  // ----- names the table knows -----

  /** No annotation can start at `k`: its character is not `p`, or it continues a word, so `\b` fails there. */
  predicate NoAnnotationAt(s: string, k: nat)
    requires k < |s|
  {
    LowerChar(s[k]) != 'p' || (k > 0 && IsWordChar(s[k - 1]) && IsWordChar(s[k]))
  }

  lemma NoAnnotationAtNone(s: string, k: nat, a: Annotation)
    requires k < |s| && NoAnnotationAt(s, k)
    ensures MatchAt(s, k, a).None?
  {
    if LowerChar(s[k]) != 'p' {
      assert "personal"[0] == 'p';
      assert LowerChar(s[k + 0]) != "personal"[0];
    }
  }

  /** A string in which no annotation starts anywhere is left unchanged. */
  lemma RemoveAnnotationsNone(w: string, a: Annotation)
    requires forall k :: 0 <= k < |w| ==> MatchAt(w, k, a).None?
    ensures RemoveAnnotations(w, a) == w
  {
    RemoveFromNoMatch(w, 0, a);
    assert w[0..] == w;
  }

  /** Where no annotation can start at any position, none does. */
  lemma NoAnnotationAnywhere(w: string, a: Annotation)
    requires forall k :: 0 <= k < |w| ==> NoAnnotationAt(w, k)
    ensures forall k :: 0 <= k < |w| ==> MatchAt(w, k, a).None?
  {
    forall k | 0 <= k < |w| ensures MatchAt(w, k, a).None? {
      NoAnnotationAtNone(w, k, a);
    }
  }

  /**
   * A name that lines 104-108 and the white-space collapse leave alone: no
   * marker in front, no separator behind, only single spaces inside, and no
   * position where an annotation can start.
   */
  predicate Untouched(w: string) {
    && w != [] && !IsLeadingMarker(w[0]) && !IsTrailingSeparator(w[|w| - 1])
    && (forall k :: 0 <= k < |w| && IsSpace(w[k]) ==> w[k] == ' ')
    && (forall k :: 0 < k < |w| ==> !(IsSpace(w[k - 1]) && IsSpace(w[k])))
    && (forall k :: 0 <= k < |w| ==> NoAnnotationAt(w, k))
  }

  /** A raw name that trims to an untouched name strips to it. */
  lemma StrippedUntouched(raw: string, w: string)
    requires Trim(raw) == w && Untouched(w)
    ensures Stripped(raw) == w
  {
    TrimOfTidy(w);
    assert DropLeadingMarkers(w) == w;
    NoAnnotationAnywhere(w, WithScore);
    RemoveAnnotationsNone(w, WithScore);
    NoAnnotationAnywhere(w, Plain);
    RemoveAnnotationsNone(w, Plain);
    assert DropTrailingSeparators(w) == w;
    StrippedVia(raw, w, w, w);
  }

  /** The lower-case lookup key of an untouched name is the name in lower case. */
  lemma KeyUntouched(w: string)
    requires Untouched(w)
    ensures NormalizeForAliasKey(w).lower == Lower(w)
  {
    CollapseSpacesRuns(w);
    CollapseRunsSingle(w, false);
    TrimOfTidy(w);
  }

  /**
   * A raw name that trims to an untouched name which, lower-cased and without
   * slashes, is entry `i`'s slash-free key cleans to entry `i`'s canonical name.
   */
  lemma CleanAliasHit(raw: string, w: string, i: int)
    requires 0 <= i < |NameAliases|
    requires Trim(raw) == w && Untouched(w)
    requires RemoveSlashes(Lower(w)) == SlashlessKey(NameAliases[i].0)
    ensures Clean(raw) == NameAliases[i].1
  {
    StrippedUntouched(raw, w);
    KeyUntouched(w);
    assert ResolvesTo(NameAliases, w, i);
    assert AliasMatches(NameAliases, raw, i);
    CleanSpec(raw);
  }

  lemma UntouchedKey0()
    ensures Untouched(NameAliases[0].0)
  {
    var w := NameAliases[0].0;
    forall k | 0 <= k < |w| ensures !IsSpace(w[k]) && LowerChar(w[k]) != 'p' {
    }
  }

  lemma UntouchedKey1()
    ensures Untouched(NameAliases[1].0)
  {
    var w := NameAliases[1].0;
    forall k | 0 <= k < |w| ensures (IsSpace(w[k]) ==> k == 7 && w[k] == ' ') && (LowerChar(w[k]) == 'p' ==> k == 1) {
    }
  }

  lemma UntouchedKey2()
    ensures Untouched(NameAliases[2].0)
  {
    var w := NameAliases[2].0;
    forall k | 0 <= k < |w| ensures (IsSpace(w[k]) ==> k == 8 && w[k] == ' ') && (LowerChar(w[k]) == 'p' ==> k == 1) {
    }
  }

  lemma UntouchedKey3()
    ensures Untouched(NameAliases[3].0)
  {
    var w := NameAliases[3].0;
    forall k | 0 <= k < |w| ensures (IsSpace(w[k]) ==> k == 2 && w[k] == ' ') && (LowerChar(w[k]) == 'p' ==> k == 1) {
    }
  }

  /** Every key of the table, as a raw name, cleans to its own canonical name. */
  lemma CleanAliasKeys(i: int)
    requires 0 <= i < |NameAliases|
    ensures Clean(NameAliases[i].0) == NameAliases[i].1
  {
    var w := NameAliases[i].0;
    if i == 0 {
      UntouchedKey0();
    } else if i == 1 {
      UntouchedKey1();
    } else if i == 2 {
      UntouchedKey2();
    } else {
      UntouchedKey3();
    }
    TrimOfTidy(w);
    CleanAliasHit(w, w, i);
  }

  lemma UpperSqgeking(w: string)
    requires w == "SQGEKING"
    ensures Untouched(w) && Lower(w) == NameAliases[0].0
  {
    var t := NameAliases[0].0;
    forall k | 0 <= k < |w| ensures !IsSpace(w[k]) && LowerChar(w[k]) == t[k] && LowerChar(w[k]) != 'p' {
    }
    LowerPointwise(w, t);
  }

  lemma TrimPadded(w: string)
    requires w != [] && !IsSpace(w[0]) && !IsSpace(w[|w| - 1])
    ensures Trim(" " + w + " ") == w
  {
    var raw := " " + w + " ";
    assert raw[1..] == w + " ";
    assert TrimStart(raw) == TrimStart(w + " ");
    TrimWordSpace(w);
  }

  /** Case and surrounding white space do not matter: ` SQGEKING ` cleans to `SØGEKING`. */
  lemma CleanAliasUpperPadded(raw: string)
    requires raw == " SQGEKING "
    ensures Clean(raw) == "SØGEKING"
  {
    var w := "SQGEKING";
    assert raw == " " + w + " ";
    UpperSqgeking(w);
    TrimPadded(w);
    NameAliasKeyLower(0);
    CleanAliasHit(raw, w, 0);
  }

  lemma SlashVariantChars(w: string)
    requires w == "upnice)/ i238"
    ensures Untouched(w) && Lower(w) == w
  {
    forall k | 0 <= k < |w|
      ensures (IsSpace(w[k]) ==> k == 8 && w[k] == ' ') && (LowerChar(w[k]) == 'p' ==> k == 1) && LowerChar(w[k]) == w[k]
    {
    }
    LowerFixed(w);
  }

  /** Removing the slashes of `a + "/" + c` when `a` and `c` have none. */
  lemma RemoveOneSlash(a: string, c: string)
    requires '\\' !in a && '/' !in a && '\\' !in c && '/' !in c
    ensures RemoveSlashes(a + ("/" + c)) == a + c
  {
    RemoveSlashesAppend(a, "/" + c);
    assert ("/" + c)[1..] == c;
    RemoveSlashesNone(a);
    RemoveSlashesNone(c);
  }

  lemma SlashVariantKey(w: string)
    requires w == "upnice)/ i238"
    ensures RemoveSlashes(w) == NameAliases[1].0
  {
    var a, c := "upnice)", " i238";
    assert w == a + ("/" + c);
    forall k | 0 <= k < |a| ensures a[k] != '\\' && a[k] != '/' {
    }
    forall k | 0 <= k < |c| ensures c[k] != '\\' && c[k] != '/' {
    }
    RemoveOneSlash(a, c);
    assert a + c == NameAliases[1].0;
  }

  /**
   * Slashes do not matter either: `upnice)/ i238` is no key of the table, but
   * without its slash it is entry 1's, so it cleans to that entry's name.
   */
  lemma CleanAliasSlashless(raw: string)
    requires raw == "upnice)/ i238"
    ensures Clean(raw) == "Up n1ce小皮鞭"
  {
    SlashVariantChars(raw);
    SlashVariantKey(raw);
    SlashlessKey1();
    CleanLowerHit(raw, 1);
  }

  /** Entry 1's key has no slash, so it is its own slash-free key. */
  lemma SlashlessKey1()
    ensures SlashlessKey(NameAliases[1].0) == NameAliases[1].0
  {
    var k := NameAliases[1].0;
    forall j | 0 <= j < |k| ensures k[j] != '\\' && k[j] != '/' {
    }
    SlashlessOfPlainKey(1);
  }

  /** A key of the table without slashes is its own slash-free key. */
  lemma SlashlessOfPlainKey(i: int)
    requires 0 <= i < |NameAliases|
    requires forall j :: 0 <= j < |NameAliases[i].0| ==> NameAliases[i].0[j] != '\\' && NameAliases[i].0[j] != '/'
    ensures SlashlessKey(NameAliases[i].0) == NameAliases[i].0
  {
    NameAliasKeyLower(i);
    RemoveSlashesNone(NameAliases[i].0);
  }

  /** An untouched lower-case name whose slash-free form is entry `i`'s slash-free key cleans to entry `i`'s name. */
  lemma CleanLowerHit(w: string, i: int)
    requires 0 <= i < |NameAliases|
    requires Untouched(w) && Lower(w) == w
    requires RemoveSlashes(w) == SlashlessKey(NameAliases[i].0)
    ensures Clean(w) == NameAliases[i].1
  {
    TrimOfTidy(w);
    CleanAliasHit(w, w, i);
  }

  // ----- worked examples -----

  /** `Stripped` through given intermediate values, one step at a time. */
  lemma StrippedVia(raw: string, s2: string, s3: string, s4: string)
    requires DropLeadingMarkers(Trim(raw)) == s2
    requires Trim(RemoveAnnotations(s2, WithScore)) == s3
    requires Trim(RemoveAnnotations(s3, Plain)) == s4
    ensures Stripped(raw) == Trim(DropTrailingSeparators(s4))
  {
  }

  /** The clean-up steps after the `@` strip leave a short tidy string alone. */
  lemma StrippedTail(s: string)
    requires 0 < |s| <= 8 && !IsSpace(s[0]) && !IsTrailingSeparator(s[|s| - 1])
    ensures Trim(RemoveAnnotations(s, WithScore)) == s
    ensures Trim(RemoveAnnotations(s, Plain)) == s
    ensures Trim(DropTrailingSeparators(s)) == s
  {
    RemoveFromShort(s, 0, WithScore);
    RemoveFromShort(s, 0, Plain);
    TrimOfTidy(s);
  }

  lemma {:induction false} DropLeadingAts(m: string, w: string)
    requires forall i :: 0 <= i < |m| ==> m[i] == '@'
    requires w == [] || !IsLeadingMarker(w[0])
    ensures DropLeadingMarkers(m + w) == w
  {
    if m == [] {
      assert m + w == w;
    } else {
      assert (m + w)[1..] == m[1..] + w;
      DropLeadingAts(m[1..], w);
    }
  }

  /** `@`s in front of a tidy string leave nothing to trim. */
  lemma TrimAts(m: string, w: string)
    requires forall i :: 0 <= i < |m| ==> m[i] == '@'
    requires w != [] && !IsSpace(w[0]) && !IsSpace(w[|w| - 1])
    ensures Trim(m + w) == m + w
  {
    var raw := m + w;
    assert raw[|raw| - 1] == w[|w| - 1];
    assert raw[0] == if m == [] then w[0] else '@';
    TrimOfTidy(raw);
  }

  /**
   * A word of at most eight characters, without white space or a trailing
   * separator, after any number of `@`s, cleans to the word.
   */
  lemma StrippedShortWord(m: string, w: string)
    requires forall i :: 0 <= i < |m| ==> m[i] == '@'
    requires 0 < |w| <= 8 && !IsLeadingMarker(w[0]) && !IsTrailingSeparator(w[|w| - 1])
    requires forall i :: 0 <= i < |w| ==> !IsSpace(w[i])
    ensures Stripped(m + w) == w
  {
    TrimAts(m, w);
    DropLeadingAts(m, w);
    StrippedTail(w);
    StrippedVia(m + w, w, w, w);
  }

  /**
   * A short unaliased word behind any number of `@`s cleans to the word: the
   * `@` strip of line 105.
   */
  lemma CleanDropsAts(m: string, w: string)
    requires forall i :: 0 <= i < |m| ==> m[i] == '@'
    requires 0 < |w| <= 8 && !IsLeadingMarker(w[0]) && !IsTrailingSeparator(w[|w| - 1])
    requires forall i :: 0 <= i < |w| ==> !IsSpace(w[i])
    requires var c := LowerChar(w[0]); c != 's' && c != 'u' && c != '\\' && c != '/'
    ensures Clean(m + w) == w
  {
    StrippedShortWord(m, w);
    ResolveUnaliased(w);
  }

  /** The whole of `personal\s*score\s*:\s*[\d,]+` at `i`, given where each part ends. */
  lemma ScoreAnnotationParts(s: string, i: nat, j: nat, c: nat, n: nat, e: nat)
    requires i + 8 <= |s| && AtWordBoundary(s, i) && WordAt(s, i, "personal")
    requires SkipSpaces(s, i + 8) == j && WordAt(s, j, "score")
    requires SkipSpaces(s, j + 5) == c && c < |s| && s[c] == ':'
    requires SkipSpaces(s, c + 1) == n && SkipAmount(s, n) == e && n < e
    ensures MatchAt(s, i, WithScore) == Some(e)
  {
  }

  /** `personal` opens `personal score: 5 @bob` and is followed by one space. */
  lemma FrontPersonal(raw: string)
    requires raw == "personal score: 5 @bob"
    ensures AtWordBoundary(raw, 0) && WordAt(raw, 0, "personal") && SkipSpaces(raw, 8) == 9
  {
    assert SkipSpaces(raw, 9) == 9;
  }

  /** `score` in `personal score: 5 @bob` is followed by `: ` and the amount `5`. */
  lemma FrontScore(raw: string)
    requires raw == "personal score: 5 @bob"
    ensures WordAt(raw, 9, "score") && SkipSpaces(raw, 14) == 14 && raw[14] == ':'
    ensures SkipSpaces(raw, 15) == 16 && SkipAmount(raw, 16) == 17
  {
    assert SkipSpaces(raw, 16) == 16;
    assert SkipAmount(raw, 17) == 17;
  }

  /** The annotation at the front of `personal score: 5 @bob` ends before ` @bob`. */
  lemma ScoreAnnotationAtFront(raw: string)
    requires raw == "personal score: 5 @bob"
    ensures MatchAt(raw, 0, WithScore) == Some(17)
  {
    FrontPersonal(raw);
    FrontScore(raw);
    ScoreAnnotationParts(raw, 0, 9, 14, 16, 17);
  }

  lemma TrimStartOneSpace(s: string, t: string)
    requires s == " " + t && t != [] && !IsSpace(t[0])
    ensures TrimStart(s) == t
  {
    assert s[1..] == t;
  }

  /** A name that starts with an annotation and ends in a word has nothing to trim or strip in front. */
  lemma AnnotationFrontKept(raw: string, e: nat, w: string)
    requires e <= |raw| && MatchAt(raw, 0, WithScore) == Some(e)
    requires raw[e..] == " @" + w && w != [] && !IsSpace(w[|w| - 1])
    ensures DropLeadingMarkers(Trim(raw)) == raw
  {
    MatchStartsWithP(raw, 0, WithScore);
    assert !IsSpace(raw[0]);
    assert raw[|raw| - 1] == (" @" + w)[|w| + 1];
    assert !IsSpace(raw[|raw| - 1]);
    assert DropLeadingMarkers(raw) == raw;
    TrimOfTidy(raw);
  }

  /** Cutting the front annotation and trimming leaves `@w`. */
  lemma AnnotationFrontCut(raw: string, e: nat, w: string)
    requires e <= |raw| && MatchAt(raw, 0, WithScore) == Some(e)
    requires raw[e..] == " @" + w && 0 < |w| <= 6 && !IsSpace(w[|w| - 1])
    ensures Trim(RemoveAnnotations(raw, WithScore)) == "@" + w
  {
    var aw := "@" + w;
    RemoveFromShort(raw, e, WithScore);
    assert RemoveAnnotations(raw, WithScore) == raw[e..];
    assert raw[e..] == " " + aw;
    assert aw[0] == '@' && !IsSpace(aw[0]);
    TrimStartOneSpace(raw[e..], aw);
    assert aw[|aw| - 1] == w[|w| - 1];
    TrimOfTidy(aw);
  }

  /** A score annotation at the front followed by ` @w` is cut, leaving `@w`. */
  lemma StrippedAnnotationThenAt(raw: string, e: nat, w: string)
    requires e <= |raw| && MatchAt(raw, 0, WithScore) == Some(e)
    requires raw[e..] == " @" + w
    requires 0 < |w| <= 6 && !IsLeadingMarker(w[0]) && !IsTrailingSeparator(w[|w| - 1])
    ensures Stripped(raw) == "@" + w
  {
    var aw := "@" + w;
    assert aw[|aw| - 1] == w[|w| - 1];
    StrippedTail(aw);
    AnnotationFrontKept(raw, e, w);
    AnnotationFrontCut(raw, e, w);
    StrippedVia(raw, raw, aw, aw);
  }

  /** A name that strips to `@w` cleans to `@w`, and cleaning again gives `w`. */
  lemma CleanTwiceAfterAt(raw: string, w: string)
    requires Stripped(raw) == "@" + w
    requires 0 < |w| <= 6 && !IsLeadingMarker(w[0]) && !IsTrailingSeparator(w[|w| - 1])
    requires forall i :: 0 <= i < |w| ==> !IsSpace(w[i])
    requires var c := LowerChar(w[0]); c != 's' && c != 'u' && c != '\\' && c != '/'
    ensures Clean(raw) == "@" + w
    ensures Clean(Clean(raw)) == w
  {
    var s := "@" + w;
    forall i | 0 <= i < |s| ensures !IsSpace(s[i]) {
      if i > 0 {
        assert s[i] == w[i - 1];
      }
    }
    ResolveUnaliased(s);
    var m := s[..1];
    assert s == m + w;
    CleanDropsAts(m, w);
  }

  /**
   * `cleanName` strips markers before annotations: a name made of a score
   * annotation followed by ` @w` cleans to `@w`, and cleaning that again gives `w`.
   */
  lemma AnnotationHidesMarker(raw: string, e: nat, w: string)
    requires e <= |raw| && MatchAt(raw, 0, WithScore) == Some(e)
    requires raw[e..] == " @" + w
    requires 0 < |w| <= 6 && !IsLeadingMarker(w[0]) && !IsTrailingSeparator(w[|w| - 1])
    requires forall i :: 0 <= i < |w| ==> !IsSpace(w[i])
    requires var c := LowerChar(w[0]); c != 's' && c != 'u' && c != '\\' && c != '/'
    ensures Clean(raw) == "@" + w
    ensures Clean(Clean(raw)) == w
  {
    StrippedAnnotationThenAt(raw, e, w);
    CleanTwiceAfterAt(raw, w);
  }

  lemma AtBob(w: string)
    requires w == "bob"
    ensures "@" + w == "@bob"
  {
  }

  /** `personal score: 5 @bob` cleans to `@bob`, which cleans to `bob`. */
  lemma CleanNotIdempotent(raw: string)
    requires raw == "personal score: 5 @bob"
    ensures Clean(raw) == "@bob"
    ensures Clean(Clean(raw)) == "bob"
  {
    ScoreAnnotationAtFront(raw);
    var w := raw[19..];
    assert raw[17..] == " @" + w;
    AnnotationHidesMarker(raw, 17, w);
    assert w == "bob";
    AtBob(w);
  }

  /** A character other than `p` or `P` starts no annotation, so it is kept. */
  lemma RemoveFromKeep(s: string, i: nat, a: Annotation)
    requires i < |s| && LowerChar(s[i]) != 'p'
    ensures RemoveFrom(s, i, a) == [s[i]] + RemoveFrom(s, i + 1, a)
  {
    if MatchAt(s, i, a).Some? {
      MatchStartsWithP(s, i, a);
    }
  }

  /** Positions whose character is not `p` or `P` start no annotation, so they are kept. */
  lemma PrependSlice(s: string, i: nat, j: nat, r: string)
    requires i < j <= |s|
    ensures [s[i]] + (s[i + 1..j] + r) == s[i..j] + r
  {
    assert s[i..j] == [s[i]] + s[i + 1..j];
  }

  lemma {:induction false} RemoveFromSkip(s: string, i: nat, j: nat, a: Annotation)
    requires i <= j <= |s|
    requires forall k :: i <= k < j ==> LowerChar(s[k]) != 'p'
    ensures RemoveFrom(s, i, a) == s[i..j] + RemoveFrom(s, j, a)
    decreases j - i
  {
    if i < j {
      RemoveFromSkip(s, i + 1, j, a);
      RemoveFromKeep(s, i, a);
      PrependSlice(s, i, j, RemoveFrom(s, j, a));
    }
  }

  /** The text up to the next annotation is kept as it is. */
  lemma {:induction false} RemoveFromUpTo(s: string, i: nat, j: nat, a: Annotation)
    requires i <= j <= |s|
    requires forall k :: i <= k < j ==> MatchAt(s, k, a).None?
    ensures RemoveFrom(s, i, a) == s[i..j] + RemoveFrom(s, j, a)
    decreases j - i
  {
    if i < j {
      RemoveFromUpTo(s, i + 1, j, a);
      PrependSlice(s, i, j, RemoveFrom(s, j, a));
    }
  }

  /**
   * One pass of the global replace: the text before the leftmost annotation
   * is kept, that annotation is removed, and the scan goes on after its end.
   */
  lemma RemoveAnnotationsLeftmost(s: string, a: Annotation, j: nat)
    requires j < |s| && MatchAt(s, j, a).Some?
    requires forall k :: 0 <= k < j ==> MatchAt(s, k, a).None?
    ensures RemoveAnnotations(s, a) == s[..j] + RemoveFrom(s, MatchAt(s, j, a).value, a)
  {
    RemoveFromUpTo(s, 0, j, a);
    assert s[0..j] == s[..j];
  }

  /** A word, a space and a score annotation that runs to the end: removing annotations leaves the word and the space. */
  lemma RemoveTrailingAnnotation(s2: string, w: string)
    requires |w| < |s2| && s2[..|w|] == w && s2[|w|] == ' '
    requires MatchAt(s2, |w| + 1, WithScore) == Some(|s2|)
    requires forall i :: 0 <= i < |w| ==> LowerChar(w[i]) != 'p'
    ensures RemoveAnnotations(s2, WithScore) == w + " "
  {
    var n := |w| + 1;
    assert s2[..n] == w + " ";
    NoPInWordSpace(s2[..n], w);
    RemoveFromSkip(s2, 0, n, WithScore);
    RemoveFromMatchToEnd(s2, n, WithScore);
  }

  lemma NoPInWordSpace(t: string, w: string)
    requires t == w + " "
    requires forall i :: 0 <= i < |w| ==> LowerChar(w[i]) != 'p'
    ensures forall k :: 0 <= k < |t| ==> LowerChar(t[k]) != 'p'
  {
  }

  /** An annotation that runs to the end is removed with nothing after it. */
  lemma RemoveFromMatchToEnd(s: string, i: nat, a: Annotation)
    requires i < |s| && MatchAt(s, i, a) == Some(|s|)
    ensures RemoveFrom(s, i, a) == []
  {
  }

  /** Trimming a tidy word followed by one space gives the word. */
  lemma TrimWordSpace(w: string)
    requires w != [] && !IsSpace(w[0]) && !IsSpace(w[|w| - 1])
    ensures Trim(w + " ") == w
  {
    var s3 := w + " ";
    assert TrimStart(s3) == s3;
    assert s3[..|s3| - 1] == w;
    assert TrimEnd(s3) == TrimEnd(w);
    TrimOfTidy(w);
  }

  /**
   * A word behind `@`s and followed by a score annotation that runs to the
   * end strips to the word.
   */
  lemma StrippedWordThenAnnotation(raw: string, m: string, s2: string, w: string)
    requires raw == m + s2 && forall i :: 0 <= i < |m| ==> m[i] == '@'
    requires 0 < |w| <= 8 && |w| < |s2| && s2[..|w|] == w && s2[|w|] == ' '
    requires MatchAt(s2, |w| + 1, WithScore) == Some(|s2|)
    requires !IsLeadingMarker(w[0]) && !IsTrailingSeparator(w[|w| - 1])
    requires forall i :: 0 <= i < |w| ==> !IsSpace(w[i]) && LowerChar(w[i]) != 'p'
    ensures Stripped(raw) == w
  {
    WordThenAnnotationFront(raw, m, s2, w);
    RemoveTrailingAnnotation(s2, w);
    TrimWordSpace(w);
    StrippedTail(w);
    StrippedVia(raw, s2, w, w);
  }

  /** The front of such a name: nothing to trim, and the `@`s are stripped. */
  lemma WordThenAnnotationFront(raw: string, m: string, s2: string, w: string)
    requires raw == m + s2 && forall i :: 0 <= i < |m| ==> m[i] == '@'
    requires 0 < |w| < |s2| && s2[..|w|] == w
    requires MatchAt(s2, |w| + 1, WithScore) == Some(|s2|)
    requires !IsLeadingMarker(w[0])
    ensures DropLeadingMarkers(Trim(raw)) == s2
  {
    assert s2[0] == w[0];
    assert IsAmountChar(s2[|s2| - 1]);
    AtsBeforeTidy(raw, m, s2);
  }

  /** `@`s before a string that starts with neither `@` nor white space and ends in a non-space: nothing to trim, and the `@`s are stripped. */
  lemma AtsBeforeTidy(raw: string, m: string, s2: string)
    requires raw == m + s2 && forall i :: 0 <= i < |m| ==> m[i] == '@'
    requires s2 != [] && !IsLeadingMarker(s2[0]) && !IsSpace(s2[|s2| - 1])
    ensures DropLeadingMarkers(Trim(raw)) == s2
  {
    assert raw[|raw| - 1] == s2[|s2| - 1];
    assert raw[0] == if m == [] then s2[0] else '@';
    TrimOfTidy(raw);
    DropLeadingAts(m, s2);
  }

  /** `personal` in `Bob Personal Score: 100` starts a word at 4 and is followed by one space. */
  lemma BobPersonal(s2: string)
    requires s2 == "Bob Personal Score: 100"
    ensures AtWordBoundary(s2, 4) && WordAt(s2, 4, "personal") && SkipSpaces(s2, 12) == 13
  {
    assert SkipSpaces(s2, 13) == 13;
  }

  /** `score` in `Bob Personal Score: 100` is followed by `: ` and the amount `100`. */
  lemma BobScore(s2: string)
    requires s2 == "Bob Personal Score: 100"
    ensures WordAt(s2, 13, "score") && SkipSpaces(s2, 18) == 18 && s2[18] == ':'
    ensures SkipSpaces(s2, 19) == 20 && SkipAmount(s2, 20) == |s2|
  {
    BobScoreWord(s2);
    BobScoreAmount(s2);
  }

  lemma BobScoreWord(s2: string)
    requires s2 == "Bob Personal Score: 100"
    ensures WordAt(s2, 13, "score")
  {
    var w := "score";
    forall k | 0 <= k < |w| ensures LowerChar(s2[13 + k]) == w[k] {
    }
  }

  lemma BobScoreAmount(s2: string)
    requires s2 == "Bob Personal Score: 100"
    ensures SkipSpaces(s2, 18) == 18 && s2[18] == ':'
    ensures SkipSpaces(s2, 19) == 20 && SkipAmount(s2, 20) == |s2|
  {
    assert SkipSpaces(s2, 20) == 20;
    assert SkipAmount(s2, 23) == 23;
    assert SkipAmount(s2, 22) == 23;
    assert SkipAmount(s2, 21) == 23;
  }

  lemma AtBobWithScore(raw: string, s2: string)
    requires raw == "@Bob Personal Score: 100" && s2 == "Bob Personal Score: 100"
    ensures raw == "@" + s2
  {
  }

  /** The raw name `@Bob Personal Score: 100` cleans to `Bob`. */
  lemma CleanBobWithScore(raw: string)
    requires raw == "@Bob Personal Score: 100"
    ensures Clean(raw) == "Bob"
  {
    var s2 := "Bob Personal Score: 100";
    AtBobWithScore(raw, s2);
    BobPersonal(s2);
    BobScore(s2);
    ScoreAnnotationParts(s2, 4, 13, 18, 20, |s2|);
    var w := "Bob";
    assert s2[..3] == w && s2[3] == ' ';
    BobWord(w);
    var m := "@";
    assert forall i :: 0 <= i < |m| ==> m[i] == '@';
    StrippedWordThenAnnotation(raw, m, s2, w);
    ResolveUnaliased(w);
  }

  /** The word `Bob` has no marker, separator, white space or `p`, and is no alias key's start. */
  lemma BobWord(w: string)
    requires w == "Bob"
    ensures 0 < |w| <= 8 && !IsLeadingMarker(w[0]) && !IsTrailingSeparator(w[|w| - 1])
    ensures forall i :: 0 <= i < |w| ==> !IsSpace(w[i]) && LowerChar(w[i]) != 'p'
    ensures var c := LowerChar(w[0]); c != 's' && c != 'u' && c != '\\' && c != '/'
  {
  }

  // ----- the lookup as written: `NAME_ALIASES[lower]` also sees inherited members -----

  /** What `NAME_ALIASES[lower]` yields: an own entry's value, a member inherited from `Object.prototype`, or `undefined`. */
  datatype JsValue = JsString(str: string) | JsInherited(member: string) | JsUndefined

  /** The members of `Object.prototype` whose names are all lower case, so that a lower-cased key can reach them. */
  const InheritedLowerCase: seq<string> := ["constructor", "__proto__"]

  /** JavaScript truthiness of a lookup result: the inherited members are a function and an object. */
  predicate Truthy(v: JsValue) {
    match v
    case JsString(str) => str != ""
    case JsInherited(_) => true
    case JsUndefined => false
  }

  /** `table[key]` on a plain object literal. */
  function LookupAsWritten(table: AliasTable, key: string): JsValue {
    match FindKey(table, key, 0)
    case Some(v) => JsString(v)
    case None => if key in InheritedLowerCase then JsInherited(key) else JsUndefined
  }

  /** Lines 110-119 as written: a truthy inherited member is returned in place of a name. */
  function ResolveAsWritten(table: AliasTable, s: string): JsValue {
    var keys := NormalizeForAliasKey(s);
    var hit := LookupAsWritten(table, keys.lower);
    if Truthy(hit) then hit
    else JsString(FindSlashless(table, keys.slashless, 0).GetOr(s))
  }

  /** `cleanName(raw)` as written. */
  function CleanAsWritten(raw: string): JsValue {
    ResolveAsWritten(NameAliases, Stripped(raw))
  }

  /** Away from the inherited member names, the lookup as written is the own-key lookup `Resolve`. */
  lemma AsWrittenAgrees(table: AliasTable, s: string)
    requires NormalizeForAliasKey(s).lower !in InheritedLowerCase
    ensures ResolveAsWritten(table, s) == JsString(Resolve(table, s))
  {
  }

  /** On an inherited member name that the table does not define, the lookup as written returns that member, which is not a string. */
  lemma AsWrittenReturnsInherited(table: AliasTable, s: string)
    requires NormalizeForAliasKey(s).lower in InheritedLowerCase
    requires FindKey(table, NormalizeForAliasKey(s).lower, 0).None?
    ensures ResolveAsWritten(table, s) == JsInherited(NormalizeForAliasKey(s).lower)
    ensures !ResolveAsWritten(table, s).JsString?
  {
  }

  /** A word without white space or any `p`, that starts with no marker and ends with no separator, is its own clean-up. */
  lemma StrippedWordWithoutP(w: string)
    requires w != [] && !IsLeadingMarker(w[0]) && !IsTrailingSeparator(w[|w| - 1])
    requires forall i :: 0 <= i < |w| ==> !IsSpace(w[i]) && LowerChar(w[i]) != 'p'
    ensures Stripped(w) == w
  {
    TrimOfTidy(w);
    DropLeadingAts([], w);
    assert [] + w == w;
    RemoveAnnotationsWithoutP(w, WithScore);
    RemoveAnnotationsWithoutP(w, Plain);
    StrippedVia(w, w, w, w);
  }

  /** A string without any `p` holds no annotation to remove. */
  lemma RemoveAnnotationsWithoutP(w: string, a: Annotation)
    requires forall i :: 0 <= i < |w| ==> LowerChar(w[i]) != 'p'
    ensures RemoveAnnotations(w, a) == w
  {
    RemoveFromSkip(w, 0, |w|, a);
    assert w[0..|w|] == w;
  }

  /** The lower-case key of a word without white space is the word in lower case. */
  lemma KeyOfWord(w: string)
    requires w != [] && !IsSpace(w[0]) && !IsSpace(w[|w| - 1])
    requires forall i :: 0 <= i < |w| ==> !IsSpace(w[i])
    ensures NormalizeForAliasKey(w).lower == Lower(w)
  {
    CollapseNoSpace(w);
    TrimOfTidy(w);
  }

  lemma ConstructorWord(raw: string)
    requires raw == "Constructor"
    ensures raw != [] && !IsLeadingMarker(raw[0]) && !IsTrailingSeparator(raw[|raw| - 1])
    ensures forall i :: 0 <= i < |raw| ==> !IsSpace(raw[i]) && LowerChar(raw[i]) != 'p'
    ensures LowerChar(raw[0]) == 'c'
  {
  }

  lemma ConstructorLower(raw: string)
    requires raw == "Constructor"
    ensures Lower(raw) == "constructor"
  {
    var t := "constructor";
    forall i | 0 <= i < |raw| ensures LowerChar(raw[i]) == t[i] {
    }
    LowerPointwise(raw, t);
  }

  lemma ConstructorIsInherited()
    ensures "constructor" in InheritedLowerCase
  {
    assert InheritedLowerCase[0] == "constructor";
  }

  /**
   * As written, a player called `Constructor` makes `cleanName` return the
   * inherited `Object` function instead of a string, so `name.toLowerCase()`
   * at line 127 throws.
   */
  lemma ConstructorCrashesAsWritten(raw: string)
    requires raw == "Constructor"
    ensures CleanAsWritten(raw) == JsInherited("constructor")
    ensures !CleanAsWritten(raw).JsString?
  {
    ConstructorWord(raw);
    StrippedWordWithoutP(raw);
    KeyOfWord(raw);
    ConstructorLower(raw);
    ConstructorIsInherited();
    NoAliasKeyWithHead(Lower(raw), 0);
    AsWrittenReturnsInherited(NameAliases, raw);
  }

  /** Read through its own keys only, the table leaves `Constructor` as it is. */
  lemma ConstructorIsOrdinaryName(raw: string)
    requires raw == "Constructor"
    ensures Clean(raw) == raw
  {
    ConstructorWord(raw);
    StrippedWordWithoutP(raw);
    ResolveUnaliased(raw);
  }
}
