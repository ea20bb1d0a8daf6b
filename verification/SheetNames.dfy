/** Sheet names of the exported message workbook: shortened to 31 characters and told apart by a numbered suffix. */
module SheetNames {
  import opened Int32
  import opened Text

  const LIMIT := 31

  predicate Invalid(c: char) { c in [':', '\\', '/', '?', '*', '[', ']'] }

  predicate Valid(s: string) { forall c :: c in s ==> !Invalid(c) }

  function Replaced(s: string): (r: string)
    ensures |r| == |s| && Valid(r)
  {
    seq(|s|, i requires 0 <= i < |s| => if Invalid(s[i]) then '-' else s[i])
  }

  /** `value.Trim('\'')`. */
  function TrimQuotes(s: string): (r: string)
    ensures forall c :: c in r ==> c in s
    ensures r != "" ==> r[0] != '\'' && r[|r| - 1] != '\''
    decreases |s|
  {
    if s == "" then ""
    else if s[0] == '\'' then TrimQuotes(s[1..])
    else if s[|s| - 1] == '\'' then TrimQuotes(s[..|s| - 1])
    else s
  }

  function Shorten(s: string): (r: string)
    ensures |r| <= LIMIT && r <= s
  {
    if |s| > LIMIT then s[..LIMIT] else s
  }

  /** The requested name without invalid characters, never empty, at most 31 characters. */
  function Clean(requested: string): (r: string)
    ensures 1 <= |r| <= LIMIT && Valid(r)
  {
    var clean := TrimQuotes(Replaced(requested));
    if IsBlank(clean) then "Other" else Shorten(clean)
  }

  lemma NumeralFits(n: nat)
    requires n <= MAX_INT
    ensures |Decimal(n)| <= 10
  {
    assert Pow10(10) == 10_000_000_000;
    DecimalLength(n, 10);
  }

  /** Suffixes are 32-bit integers, so a marker leaves room for part of the name. */
  function Marker(suffix: nat): (r: string)
    requires suffix <= MAX_INT
    ensures 2 <= |r| <= 11
  {
    NumeralFits(suffix);
    "-" + Decimal(suffix)
  }

  function Candidate(clean: string, suffix: nat): string
    requires suffix <= MAX_INT
  {
    var room := LIMIT - |Marker(suffix)|;
    clean[..if |clean| < room then |clean| else room] + Marker(suffix)
  }

  lemma FoldCandidate(clean: string, suffix: nat)
    requires suffix <= MAX_INT
    ensures exists kept :: Fold(Candidate(clean, suffix)) == kept + ['-'] + Decimal(suffix)
  {
    hide Fold, Decimal;
    var room := LIMIT - |Marker(suffix)|;
    var kept := clean[..if |clean| < room then |clean| else room];
    assert Candidate(clean, suffix) == kept + ("-" + Decimal(suffix));
    FoldConcat(kept, "-" + Decimal(suffix));
    FoldConcat("-", Decimal(suffix));
    FoldDigits(Decimal(suffix));
    assert Fold("-") == ['-'] by { FoldDash(); }
    assert Fold(Candidate(clean, suffix)) == Fold(kept) + ['-'] + Decimal(suffix);
  }

  lemma FoldDash()
    ensures Fold("-") == ['-']
  {
  }

  /** Shortening does not make candidates for different suffixes collide. */
  lemma CandidatesDistinct(clean: string, m: nat, n: nat)
    requires m <= MAX_INT && n <= MAX_INT
    requires Fold(Candidate(clean, m)) == Fold(Candidate(clean, n))
    ensures m == n
  {
    hide Fold, Decimal, Candidate;
    FoldCandidate(clean, m);
    FoldCandidate(clean, n);
    var a :| Fold(Candidate(clean, m)) == a + ['-'] + Decimal(m);
    var b :| Fold(Candidate(clean, n)) == b + ['-'] + Decimal(n);
    NumberedSuffixInjective(a, b, '-', m, n);
  }

  /** The suffixes from 2 up to `next` are all taken. */
  predicate AllTaken(clean: string, used: set<string>, next: nat)
    requires next <= MAX_INT + 1
  {
    forall j :: 2 <= j < next ==> Fold(Candidate(clean, j)) in used
  }

  /** Pigeonhole: so many taken candidates need as many used names. */
  lemma {:induction false} TakenCount(clean: string, used: set<string>, next: nat) returns (taken: set<string>)
    requires 2 <= next <= MAX_INT + 1 && AllTaken(clean, used, next)
    ensures taken <= used && |taken| == next - 2
    ensures forall t :: t in taken ==> exists j :: 2 <= j < next && t == Fold(Candidate(clean, j))
  {
    hide Fold, Candidate, Marker;
    taken := {};
    if next > 2 {
      var last := next - 1;
      taken := TakenCount(clean, used, last);
      var added := Fold(Candidate(clean, last));
      if added in taken {
        var j :| 2 <= j < last && added == Fold(Candidate(clean, j));
        CandidatesDistinct(clean, j, last);
      }
      taken := taken + {added};
    }
  }

  lemma SuffixBounded(clean: string, used: set<string>, next: nat)
    requires 2 <= next <= MAX_INT + 1 && AllTaken(clean, used, next)
    ensures next - 2 <= |used|
  {
    var taken := TakenCount(clean, used, next);
    assert used == taken + (used - taken);
  }

  /** The clean name when it is free, and otherwise the first numbered candidate that is. */
  predicate Chosen(clean: string, used: set<string>, name: string) {
    if Fold(clean) !in used then name == clean
    else exists k :: 2 <= k <= MAX_INT && name == Candidate(clean, k) && Fold(name) !in used && AllTaken(clean, used, k)
  }

  method SafeSheetName(requested: string, existing: seq<string>) returns (candidate: string)
    requires |existing| + 3 <= MAX_INT
    ensures Chosen(Clean(requested), Keys(existing), candidate)
    ensures Fold(candidate) !in Keys(existing)
    ensures 1 <= |candidate| <= 31 && Valid(candidate) && forall c :: c in candidate ==> c !in FORBIDDEN
  {
    hide Clean, Decimal;
    var clean := Clean(requested);
    var used := Keys(existing);
    KeysBounded(existing);
    candidate := clean;
    var suffix := 2;
    while Fold(candidate) in used
      invariant 2 <= suffix <= |used| + 3 <= MAX_INT
      invariant 1 <= |candidate| <= LIMIT && Valid(candidate)
      invariant AllTaken(clean, used, if suffix > 2 then suffix - 1 else 2)
      invariant if suffix == 2 then candidate == clean else Fold(clean) in used && candidate == Candidate(clean, suffix - 1)
      decreases |used| + 3 - suffix
    {
      SuffixBounded(clean, used, suffix);
      CandidateValid(clean, suffix);
      candidate := Candidate(clean, suffix);
      suffix := suffix + 1;
    }
    ValidExactly(candidate);
  }

  lemma ValidExactly(s: string)
    ensures Valid(s) <==> forall c :: c in s ==> c !in FORBIDDEN
  {
    forall c: char ensures Invalid(c) <==> c in FORBIDDEN { InvalidExactly(c); }
  }

  lemma {:induction false} KeysBounded(names: seq<string>)
    ensures |Keys(names)| <= |names|
  {
    if names == [] {
      assert Keys(names) == {};
    } else {
      var init, last := names[..|names| - 1], names[|names| - 1];
      KeysBounded(init);
      assert names == init + [last];
      KeysAppend(init, last);
    }
  }

  lemma CandidateValid(clean: string, suffix: nat)
    requires suffix <= MAX_INT && Valid(clean)
    ensures var c := Candidate(clean, suffix); 1 <= |c| <= LIMIT && Valid(c)
  {
    hide Decimal;
    forall c | c in Decimal(suffix) ensures !Invalid(c) { assert IsDigit(c); }
  }

  // ---- the sheet list ----

  predicate Distinct(names: seq<string>) { forall i, j :: 0 <= i < j < |names| ==> Fold(names[i]) != Fold(names[j]) }

  /** Every module's sheet is named against the names before it. */
  predicate NamedInOrder(modules: seq<string>, names: seq<string>)
    requires |names| <= |modules| + 1
  {
    forall i :: 1 <= i < |names| ==> Chosen(Clean(modules[i - 1]), Keys(names[..i]), names[i])
  }

  predicate AllFit(names: seq<string>) { forall n :: n in names ==> 1 <= |n| <= LIMIT }

  lemma AppendName(modules: seq<string>, names: seq<string>, name: string)
    requires 1 <= |names| <= |modules| && NamedInOrder(modules, names) && Distinct(names)
    requires Chosen(Clean(modules[|names| - 1]), Keys(names), name) && Fold(name) !in Keys(names)
    ensures NamedInOrder(modules, names + [name]) && Distinct(names + [name])
  {
    hide Clean, Chosen, Fold;
    var all := names + [name];
    forall i | 1 <= i < |all| ensures Chosen(Clean(modules[i - 1]), Keys(all[..i]), all[i]) {
      if i < |names| { assert all[..i] == names[..i]; } else { assert all[..i] == names; }
    }
    forall i, j | 0 <= i < j < |all| ensures Fold(all[i]) != Fold(all[j]) {
      if j == |names| { assert Fold(names[i]) in Keys(names); }
    }
  }

  /** One sheet for all messages and one per module, in the order of the modules. */
  method SheetList(modules: seq<string>) returns (names: seq<string>)
    requires |modules| + 4 <= MAX_INT
    ensures |names| == |modules| + 1 && names[0] == "Messages"
    ensures Distinct(names) && AllFit(names) && NamedInOrder(modules, names)
  {
    hide Clean, Chosen, Distinct, Fold, Keys;
    names := ["Messages"];
    assert Distinct(names) by { OneName("Messages"); }
    for m := 0 to |modules|
      invariant |names| == m + 1 && names[0] == "Messages"
      invariant Distinct(names) && AllFit(names) && NamedInOrder(modules, names)
    {
      var name := SafeSheetName(modules[m], names);
      AppendName(modules, names, name);
      names := names + [name];
    }
  }

  lemma OneName(name: string)
    ensures Distinct([name])
  {
  }

  // ---- what cleaning does ----

  const FORBIDDEN := ":\\/?*[]"

  lemma InvalidExactly(c: char)
    ensures Invalid(c) <==> c in FORBIDDEN
  {
    assert FORBIDDEN == [':', '\\', '/', '?', '*', '[', ']'];
  }

  predicate Quotes(s: string) { forall i :: 0 <= i < |s| ==> s[i] == '\'' }

  lemma {:induction false} TrimQuotesExactly(s: string) returns (before: string, after: string)
    ensures s == before + TrimQuotes(s) + after && Quotes(before) && Quotes(after)
    decreases |s|
  {
    hide Quotes;
    before, after := "", "";
    assert Quotes("") by { NoQuotes(); }
    if s != "" && s[0] == '\'' {
      before, after := TrimQuotesExactly(s[1..]);
      QuoteAround(before);
      assert s == ['\''] + (before + TrimQuotes(s[1..]) + after);
      before := ['\''] + before;
    } else if s != "" && s[|s| - 1] == '\'' {
      before, after := TrimQuotesExactly(s[..|s| - 1]);
      QuoteAround(after);
      assert s == (before + TrimQuotes(s[..|s| - 1]) + after) + ['\''];
      after := after + ['\''];
    }
  }

  lemma NoQuotes()
    ensures Quotes("")
  {
  }

  lemma QuoteAround(s: string)
    requires Quotes(s)
    ensures Quotes(['\''] + s) && Quotes(s + ['\''])
  {
  }

  /** The text with a dash for every forbidden character. */
  predicate Dashed(requested: string, dashed: string) {
    |dashed| == |requested|
    && forall i :: 0 <= i < |requested| ==> dashed[i] == if requested[i] in FORBIDDEN then '-' else requested[i]
  }

  /** A clean name is what is left between the outer quotes once forbidden characters are dashes, cut at 31 characters, and
      `Other` where that is blank. */
  lemma CleanExactly(requested: string) returns (dashed: string, before: string, middle: string, after: string)
    ensures Dashed(requested, dashed) && dashed == before + middle + after && Quotes(before) && Quotes(after)
    ensures middle != "" ==> middle[0] != '\'' && middle[|middle| - 1] != '\''
    ensures Clean(requested) == if IsBlank(middle) then "Other" else if |middle| <= 31 then middle else middle[..31]
  {
    hide TrimQuotes, IsBlank, Quotes;
    dashed := Replaced(requested);
    forall i | 0 <= i < |requested| ensures dashed[i] == if requested[i] in FORBIDDEN then '-' else requested[i] {
      InvalidExactly(requested[i]);
    }
    middle := TrimQuotes(dashed);
    before, after := TrimQuotesExactly(dashed);
  }

  /** A numbered candidate is the name, or as much of it as 31 characters leave room for, with a dash and the number. */
  lemma CandidateExactly(clean: string, suffix: nat) returns (kept: string)
    requires suffix <= MAX_INT && |clean| <= LIMIT
    ensures kept <= clean && Candidate(clean, suffix) == kept + "-" + Decimal(suffix)
    ensures if |clean| + 1 + |Decimal(suffix)| <= 31 then kept == clean else |Candidate(clean, suffix)| == 31
  {
    hide Decimal;
    kept := clean[..if |clean| < LIMIT - |Marker(suffix)| then |clean| else LIMIT - |Marker(suffix)|];
    assert kept + ("-" + Decimal(suffix)) == kept + "-" + Decimal(suffix);
  }
}
