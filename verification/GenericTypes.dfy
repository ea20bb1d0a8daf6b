/** Reading the arguments and the table key of a printed generic type. */
module GenericTypes {
  import opened Text

  function First(s: string, c: char): (k: nat)
    ensures k <= |s| && Free(s[..k], c) && (k < |s| ==> s[k] == c)
  {
    if s == "" || s[0] == c then 0
    else
      var k := First(s[1..], c);
      assert s[..k + 1] == [s[0]] + s[1..][..k];
      k + 1
  }

  function TrimEnd(s: string, c: char): (r: string)
    ensures r <= s && (r != "" ==> r[|r| - 1] != c)
  {
    if s != "" && s[|s| - 1] == c then TrimEnd(s[..|s| - 1], c) else s
  }

  /** How a character changes the nesting depth. */
  function Delta(c: char): int { if c == '<' then 1 else if c == '>' then -1 else 0 }

  function Depth(s: string): int { if s == "" then 0 else Depth(s[..|s| - 1]) + Delta(s[|s| - 1]) }

  /** The text up to the commas outside of angle brackets, at a depth to begin with. */
  function Segments(s: string, depth: int): (r: seq<string>)
    ensures r != []
  {
    if s == "" then [""]
    else if s[0] == ',' && depth == 0 then [""] + Segments(s[1..], depth)
    else Attach([s[0]], Segments(s[1..], depth + Delta(s[0])))
  }

  function Attach(text: string, segments: seq<string>): seq<string>
    requires segments != []
  {
    [text + segments[0]] + segments[1..]
  }

  function Trimmed(segments: seq<string>): (r: seq<string>)
    ensures |r| == |segments| && forall i :: 0 <= i < |r| ==> r[i] == Trim(segments[i])
  {
    seq(|segments|, i requires 0 <= i < |segments| => Trim(segments[i]))
  }

  predicate IsGeneric(s: string) { First(s, '<') < |s| && s[|s| - 1] == '>' }

  /** What is between the first opening bracket and the last character. */
  function Inner(s: string): string
    requires IsGeneric(s)
  {
    s[First(s, '<') + 1..|s| - 1]
  }

  function Arguments(s: string): seq<string> { if IsGeneric(s) then Trimmed(Segments(Inner(s), 0)) else [] }

  method GenericArguments(s: string) returns (result: seq<string>)
    ensures result == Arguments(s)
  {
    hide Segments, Depth, Trim, First;
    var start := First(s, '<');
    if start == |s| || s[|s| - 1] != '>' { return []; }
    var inner := s[start + 1..|s| - 1];
    result := SplitArguments(inner);
  }

  /** The loop over the characters between the brackets. */
  method SplitArguments(inner: string) returns (result: seq<string>)
    ensures result == Trimmed(Segments(inner, 0))
  {
    hide Segments, Depth, Trim, First, Attach, Trimmed;
    NothingTrimmed();
    ghost var all := Segments(inner, 0);
    ghost var done: seq<string> := [];
    var depth, segmentStart := 0, 0;
    result := [];
    assert inner[0..] == inner && inner[..0] == "" && [] + all == all;
    AttachNothing(all);
    NoDepth();
    for index := 0 to |inner|
      invariant 0 <= segmentStart <= index
      invariant depth == Depth(inner[..index])
      invariant all == done + Attach(inner[segmentStart..index], Segments(inner[index..], depth))
      invariant result == Trimmed(done)
    {
      var c := inner[index];
      ghost var before, rest := inner[segmentStart..index], inner[index + 1..];
      assert inner[index..] == [c] + rest && inner[..index + 1] == inner[..index] + [c];
      DepthConcat(inner[..index], [c]);
      One(c);
      if c == ',' && depth == 0 {
        CutHere(done, before, rest);
        TrimmedNext(done, before);
        result := result + [Trim(inner[segmentStart..index])];
        done := done + [before];
        segmentStart := index + 1;
        assert inner[segmentStart..index + 1] == "";
      } else {
        GoOn(done, before, c, rest, depth);
        assert inner[segmentStart..index + 1] == before + [c];
        depth := depth + Delta(c);
      }
    }
    assert inner[|inner|..] == "" && inner[segmentStart..] == inner[segmentStart..|inner|];
    NoSegments(depth);
    AttachLast(inner[segmentStart..]);
    TrimmedNext(done, inner[segmentStart..]);
    result := result + [Trim(inner[segmentStart..])];
  }

  lemma NothingTrimmed()
    ensures Trimmed([]) == []
  {
  }

  lemma TrimmedNext(done: seq<string>, last: string)
    ensures Trimmed(done + [last]) == Trimmed(done) + [Trim(last)]
  {
    hide Trim;
  }

  /** A comma outside of brackets ends a segment ... */
  lemma CutHere(done: seq<string>, before: string, rest: string)
    ensures done + Attach(before, Segments([','] + rest, 0)) == (done + [before]) + Attach("", Segments(rest, 0))
  {
    hide Segments, Attach;
    SegmentsStep(',', rest, 0);
    AttachCut(before, Segments(rest, 0));
    AttachNothing(Segments(rest, 0));
    assert done + ([before] + Segments(rest, 0)) == (done + [before]) + Segments(rest, 0);
  }

  /** ... and every other character goes on with it. */
  lemma GoOn(done: seq<string>, before: string, c: char, rest: string, depth: int)
    requires !(c == ',' && depth == 0)
    ensures done + Attach(before, Segments([c] + rest, depth)) == done + Attach(before + [c], Segments(rest, depth + Delta(c)))
  {
    hide Segments, Attach, Delta;
    SegmentsStep(c, rest, depth);
    AttachTwice(before, [c], Segments(rest, depth + Delta(c)));
  }

  lemma AttachNothing(segments: seq<string>)
    requires segments != []
    ensures Attach("", segments) == segments
  {
    assert "" + segments[0] == segments[0];
  }

  lemma AttachCut(a: string, segments: seq<string>)
    ensures Attach(a, [""] + segments) == [a] + segments
  {
    assert a + "" == a;
  }

  lemma AttachLast(a: string)
    ensures Attach(a, [""]) == [a]
  {
    assert a + "" == a;
  }

  lemma SegmentsStep(c: char, rest: string, depth: int)
    ensures Segments([c] + rest, depth) ==
            if c == ',' && depth == 0 then [""] + Segments(rest, depth) else Attach([c], Segments(rest, depth + Delta(c)))
  {
    assert ([c] + rest)[1..] == rest;
  }

  lemma AttachTwice(a: string, b: string, segments: seq<string>)
    requires segments != []
    ensures Attach(a, Attach(b, segments)) == Attach(a + b, segments)
  {
    assert a + (b + segments[0]) == (a + b) + segments[0];
  }

  // ---- type trees ----

  datatype TypeTree = TypeTree(name: string, arguments: seq<TypeTree>, nullable: bool)

  predicate NameFree(name: string) { Free(name, '<') && Free(name, '>') && Free(name, ',') }

  predicate Bracketless(t: TypeTree) {
    NameFree(t.name) && forall i :: 0 <= i < |t.arguments| ==> Bracketless(t.arguments[i])
  }

  /** The text of a type; `pad` is the white space after each comma. */
  function Print(t: TypeTree, pad: string): string
    decreases t, 1, 0
  {
    t.name + (if t.arguments == [] then "" else "<" + PrintAll(t.arguments, pad) + ">") + (if t.nullable then "?" else "")
  }

  function PrintAll(ts: seq<TypeTree>, pad: string): string
    decreases ts, 0
  {
    if ts == [] then ""
    else if |ts| == 1 then Print(ts[0], pad)
    else Print(ts[0], pad) + "," + pad + PrintAll(ts[1..], pad)
  }

  predicate NeverNegative(s: string) { forall i :: 0 <= i <= |s| ==> Depth(s[..i]) >= 0 }

  /** Characters that neither bracket nor, at the outermost level, separate. */
  predicate Calm(s: string, depth: nat) { Free(s, '<') && Free(s, '>') && (depth == 0 ==> Free(s, ',')) }

  lemma {:induction false} CalmPasses(s: string, rest: string, depth: nat)
    requires Calm(s, depth)
    ensures Segments(s + rest, depth) == Attach(s, Segments(rest, depth))
  {
    hide Segments, Attach;
    if s == "" {
      assert s + rest == rest;
      AttachNothing(Segments(rest, depth));
    } else {
      assert s + rest == [s[0]] + (s[1..] + rest);
      SegmentsStep(s[0], s[1..] + rest, depth);
      CalmPasses(s[1..], rest, depth);
      AttachTwice([s[0]], s[1..], Segments(rest, depth));
      assert [s[0]] + s[1..] == s;
    }
  }

  lemma Opening(rest: string, depth: nat)
    ensures Segments("<" + rest, depth) == Attach("<", Segments(rest, depth + 1))
  {
    assert ("<" + rest)[1..] == rest;
  }

  lemma Closing(rest: string, depth: nat)
    ensures Segments(">" + rest, depth + 1) == Attach(">", Segments(rest, depth))
  {
    assert (">" + rest)[1..] == rest;
  }

  lemma PadCalm(pad: string, depth: nat)
    requires IsBlank(pad)
    ensures Calm(pad, depth) && (depth > 0 ==> Calm("," + pad, depth))
  {
  }

  function Suffix(t: TypeTree): string { if t.nullable then "?" else "" }

  /** A printed type is passed over as a whole, at every depth. */
  lemma {:induction false} PrintPasses(t: TypeTree, pad: string, rest: string, depth: nat)
    requires Bracketless(t) && IsBlank(pad)
    ensures Segments(Print(t, pad) + rest, depth) == Attach(Print(t, pad), Segments(rest, depth))
    decreases t, 1, 0
  {
    hide Segments, IsBlank, Attach;
    var q := Suffix(t);
    CalmPasses(q, rest, depth);
    if t.arguments == [] {
      CalmPasses(t.name, q + rest, depth);
      AttachTwice(t.name, q, Segments(rest, depth));
      assert Print(t, pad) + rest == t.name + (q + rest) && Print(t, pad) == t.name + q;
    } else {
      var inner := PrintAll(t.arguments, pad);
      var s3, s4 := ">" + (q + rest), q + rest;
      Closing(s4, depth);
      PrintAllPasses(t.arguments, pad, s3, depth + 1);
      Opening(inner + s3, depth);
      CalmPasses(t.name, "<" + (inner + s3), depth);
      assert Print(t, pad) + rest == t.name + ("<" + (inner + s3)) by { Unfold(t, pad, rest); }
      AttachTwice(">", q, Segments(rest, depth));
      AttachTwice(inner, ">" + q, Segments(rest, depth));
      AttachTwice("<", inner + (">" + q), Segments(rest, depth));
      AttachTwice(t.name, "<" + (inner + (">" + q)), Segments(rest, depth));
      assert Print(t, pad) == t.name + ("<" + (inner + (">" + q))) by { Unfold(t, pad, ""); }
    }
  }

  lemma Unfold(t: TypeTree, pad: string, rest: string)
    requires t.arguments != []
    ensures var inner := PrintAll(t.arguments, pad);
            Print(t, pad) + rest == t.name + ("<" + (inner + (">" + (Suffix(t) + rest))))
            && Print(t, pad) == t.name + ("<" + (inner + (">" + Suffix(t))))
  {
    hide PrintAll;
    var inner := PrintAll(t.arguments, pad);
    assert Print(t, pad) == t.name + ("<" + inner + ">") + Suffix(t);
    assert t.name + ("<" + inner + ">") + Suffix(t) == t.name + ("<" + (inner + (">" + Suffix(t))));
    assert (t.name + ("<" + (inner + (">" + Suffix(t))))) + rest == t.name + ("<" + (inner + (">" + (Suffix(t) + rest))));
  }

  lemma {:induction false} PrintAllPasses(ts: seq<TypeTree>, pad: string, rest: string, depth: nat)
    requires (forall i :: 0 <= i < |ts| ==> Bracketless(ts[i])) && IsBlank(pad) && depth > 0
    ensures Segments(PrintAll(ts, pad) + rest, depth) == Attach(PrintAll(ts, pad), Segments(rest, depth))
    decreases ts, 0
  {
    hide Segments, IsBlank, Attach, Print, Bracketless, Calm;
    if ts == [] {
      CalmNothing(depth);
      CalmPasses("", rest, depth);
    } else if |ts| == 1 {
      PrintPasses(ts[0], pad, rest, depth);
    } else {
      var head, sep, tail := Print(ts[0], pad), "," + pad, PrintAll(ts[1..], pad);
      PrintAllPasses(ts[1..], pad, rest, depth);
      PadCalm(pad, depth);
      CalmPasses(sep, tail + rest, depth);
      PrintPasses(ts[0], pad, sep + (tail + rest), depth);
      AttachTwice(sep, tail, Segments(rest, depth));
      AttachTwice(head, sep + tail, Segments(rest, depth));
      assert PrintAll(ts, pad) == head + (sep + tail);
      assert PrintAll(ts, pad) + rest == head + (sep + (tail + rest));
    }
  }

  lemma CalmNothing(depth: nat)
    ensures Calm("", depth)
  {
  }

  // ---- the arguments come back ----

  function Prints(ts: seq<TypeTree>, pad: string): (r: seq<string>)
    ensures |r| == |ts| && forall i :: 0 <= i < |r| ==> r[i] == Print(ts[i], pad)
  {
    seq(|ts|, i requires 0 <= i < |ts| => Print(ts[i], pad))
  }

  lemma {:induction false} TrimPad(pad: string, s: string)
    requires IsBlank(pad)
    ensures Trim(pad + s) == Trim(s)
  {
    if pad == "" {
      assert pad + s == s;
    } else {
      assert (pad + s)[1..] == pad[1..] + s;
      TrimPad(pad[1..], s);
    }
  }

  /** One printed type, and what follows it: nothing, or a comma and the rest. */
  lemma LastSegments(t: TypeTree, lead: string, pad: string)
    requires Bracketless(t) && IsBlank(pad) && IsBlank(lead)
    ensures Segments(lead + Print(t, pad), 0) == [lead + Print(t, pad)]
  {
    hide *;
    var head := Print(t, pad);
    PadCalm(lead, 0);
    PrintPasses(t, pad, "", 0);
    CalmPasses(lead, head, 0);
    NoSegments(0);
    AttachLast(head);
    AttachLast(lead + head);
    AttachTwice(lead, head, [""]);
    assert head + "" == head;
  }

  lemma MoreSegments(t: TypeTree, lead: string, pad: string, tail: string)
    requires Bracketless(t) && IsBlank(pad) && IsBlank(lead)
    ensures Segments(lead + (Print(t, pad) + ("," + tail)), 0) == [lead + Print(t, pad)] + Segments(tail, 0)
  {
    hide *;
    var head := Print(t, pad);
    PadCalm(lead, 0);
    PrintPasses(t, pad, "," + tail, 0);
    CalmPasses(lead, head + ("," + tail), 0);
    CommaSegments(tail);
    AttachTwice(lead, head, [""] + Segments(tail, 0));
    AttachCut(lead + head, Segments(tail, 0));
  }

  lemma {:induction false} AllSegments(ts: seq<TypeTree>, lead: string, pad: string)
    requires ts != [] && (forall i :: 0 <= i < |ts| ==> Bracketless(ts[i])) && IsBlank(pad) && IsBlank(lead)
    ensures Trimmed(Segments(lead + PrintAll(ts, pad), 0)) == Trimmed(Prints(ts, pad))
    decreases |ts|
  {
    hide Segments, IsBlank, Print, Bracketless, Calm, Trim;
    var head := Print(ts[0], pad);
    TrimPad(lead, head);
    if |ts| == 1 {
      LastSegments(ts[0], lead, pad);
    } else {
      var tail := pad + PrintAll(ts[1..], pad);
      AllSegments(ts[1..], pad, pad);
      MoreSegments(ts[0], lead, pad, tail);
      assert PrintAll(ts, pad) == head + ("," + tail);
      assert Prints(ts, pad) == [head] + Prints(ts[1..], pad);
      TrimmedCons(lead + head, Segments(tail, 0));
      TrimmedCons(head, Prints(ts[1..], pad));
    }
  }

  lemma TrimmedCons(a: string, segments: seq<string>)
    ensures Trimmed([a] + segments) == [Trim(a)] + Trimmed(segments)
  {
    hide Trim;
  }

  lemma NoSegments(depth: int)
    ensures Segments("", depth) == [""]
  {
  }

  lemma CommaSegments(rest: string)
    ensures Segments("," + rest, 0) == [""] + Segments(rest, 0)
  {
    assert ("," + rest)[1..] == rest;
  }

  lemma {:induction false} FirstIs(before: string, c: char, after: string)
    requires Free(before, c)
    ensures First(before + ([c] + after), c) == |before|
  {
    if before != "" {
      assert (before + ([c] + after))[1..] == before[1..] + ([c] + after);
      FirstIs(before[1..], c, after);
    }
  }

  lemma {:induction false} FirstAbsent(s: string, c: char)
    requires Free(s, c)
    ensures First(s, c) == |s|
  {
  }

  lemma PrintedGeneric(t: TypeTree, pad: string)
    requires Bracketless(t) && t.arguments != []
    ensures First(Print(t, pad), '<') == |t.name|
    ensures IsGeneric(Print(t, pad)) <==> !t.nullable
    ensures !t.nullable ==> Inner(Print(t, pad)) == PrintAll(t.arguments, pad)
  {
    hide PrintAll, Print;
    var s, inner := Print(t, pad), PrintAll(t.arguments, pad);
    Unfold(t, pad, "");
    FirstIs(t.name, '<', inner + (">" + Suffix(t)));
    assert t.name + ("<" + (inner + (">" + Suffix(t)))) == t.name + (['<'] + (inner + (">" + Suffix(t))));
  }

  lemma PrintedPlain(t: TypeTree, pad: string)
    requires Bracketless(t) && t.arguments == []
    ensures First(Print(t, pad), '<') == |Print(t, pad)| && Print(t, pad) == t.name + Suffix(t)
  {
    assert Free(Print(t, pad), '<');
    FirstAbsent(Print(t, pad), '<');
  }

  /** Main result: of a printed type without a nullable mark the arguments come back, as printed and trimmed;
      with the mark none come back. */
  lemma ArgumentsRoundTrip(t: TypeTree, pad: string)
    requires Bracketless(t) && IsBlank(pad)
    ensures Arguments(Print(t, pad)) == if t.nullable then [] else Trimmed(Prints(t.arguments, pad))
  {
    hide Print, PrintAll, Segments, Inner, Bracketless, IsBlank, First, Trim, Suffix, Prints, Trimmed;
    if t.arguments == [] {
      PrintedPlain(t, pad);
      NoPrints(pad);
    } else {
      PrintedGeneric(t, pad);
      if !t.nullable {
        ArgumentsBracketless(t);
        EmptyBlank();
        AllSegments(t.arguments, "", pad);
        assert "" + PrintAll(t.arguments, pad) == PrintAll(t.arguments, pad);
      }
    }
  }

  lemma NoPrints(pad: string)
    ensures Trimmed(Prints([], pad)) == []
  {
  }

  lemma EmptyBlank()
    ensures IsBlank("")
  {
  }

  lemma ArgumentsBracketless(t: TypeTree)
    requires Bracketless(t)
    ensures forall i :: 0 <= i < |t.arguments| ==> Bracketless(t.arguments[i])
  {
  }

  /** A name as source code spells it: no white space at either end, no nullable mark. */
  predicate Tight(name: string) {
    name != "" && !IsSpace(name[0]) && !IsSpace(name[|name| - 1]) && name[|name| - 1] != '?'
  }

  predicate AllTight(t: TypeTree) { Tight(t.name) && forall i :: 0 <= i < |t.arguments| ==> AllTight(t.arguments[i]) }

  lemma PrintTight(t: TypeTree, pad: string)
    requires Tight(t.name)
    ensures var s := Print(t, pad); s != "" && Trim(s) == s
    ensures TrimEnd(Print(t, pad), '?') == Print(t.(nullable := false), pad)
  {
    hide PrintAll;
    var s, bare := Print(t, pad), Print(t.(nullable := false), pad);
    assert s == bare + Suffix(t);
    assert bare != "" && bare[0] == t.name[0] && bare[|bare| - 1] != '?' && !IsSpace(bare[|bare| - 1]);
    assert TrimEnd(bare, '?') == bare;
    if t.nullable { assert s[..|s| - 1] == bare; }
  }

  /** With names as source code spells them the arguments come back exactly as they were printed. */
  lemma ArgumentsExactly(t: TypeTree, pad: string)
    requires Bracketless(t) && AllTight(t) && IsBlank(pad) && !t.nullable
    ensures Arguments(Print(t, pad)) == Prints(t.arguments, pad)
  {
    hide Print, Arguments;
    ArgumentsRoundTrip(t, pad);
    forall i | 0 <= i < |t.arguments| ensures Trim(Print(t.arguments[i], pad)) == Print(t.arguments[i], pad) {
      assert AllTight(t.arguments[i]);
      PrintTight(t.arguments[i], pad);
    }
  }

  // ---- the depth counter ----

  lemma {:induction false} DepthConcat(a: string, b: string)
    ensures Depth(a + b) == Depth(a) + Depth(b)
  {
    if b == "" {
      assert a + b == a;
    } else {
      assert (a + b)[..|a + b| - 1] == a + b[..|b| - 1];
      DepthConcat(a, b[..|b| - 1]);
    }
  }

  lemma NeverNegativeConcat(a: string, b: string)
    requires NeverNegative(a) && NeverNegative(b)
    ensures NeverNegative(a + b)
  {
    hide Depth;
    forall i | 0 <= i <= |a + b| ensures Depth((a + b)[..i]) >= 0 {
      if i <= |a| {
        assert (a + b)[..i] == a[..i];
      } else {
        assert (a + b)[..i] == a + b[..i - |a|];
        DepthConcat(a, b[..i - |a|]);
        assert a[..|a|] == a;
      }
    }
  }

  lemma {:induction false} CalmDepth(s: string)
    requires Free(s, '<') && Free(s, '>')
    ensures Depth(s) == 0 && NeverNegative(s)
  {
    if s != "" {
      CalmDepth(s[..|s| - 1]);
      forall i | 0 <= i <= |s| ensures Depth(s[..i]) >= 0 {
        if i < |s| { assert s[..i] == s[..|s| - 1][..i]; } else { assert s[..i] == s; }
      }
    }
  }

  lemma Bracketed(s: string)
    requires Depth(s) == 0 && NeverNegative(s)
    ensures Depth("<" + s + ">") == 0 && NeverNegative("<" + s + ">")
  {
    hide Depth;
    One('<');
    One('>');
    var t := "<" + s + ">";
    assert t == "<" + (s + ">");
    DepthConcat("<", s + ">");
    DepthConcat(s, ">");
    forall i | 0 <= i <= |t| ensures Depth(t[..i]) >= 0 {
      if i == 0 {
        assert t[..i] == "";
        NoDepth();
      } else if i <= |s| + 1 {
        assert t[..i] == "<" + s[..i - 1];
        DepthConcat("<", s[..i - 1]);
      } else {
        assert t[..i] == t;
      }
    }
  }

  lemma One(c: char)
    ensures Depth([c]) == Delta(c)
  {
    assert [c][..0] == "" && Depth("") == 0;
  }

  lemma NoDepth()
    ensures Depth("") == 0
  {
  }

  lemma {:induction false} PrintDepth(t: TypeTree, pad: string)
    requires Bracketless(t) && IsBlank(pad)
    ensures Depth(Print(t, pad)) == 0 && NeverNegative(Print(t, pad))
    decreases t, 1, 0
  {
    hide Depth, NeverNegative, IsBlank, PrintAll;
    CalmDepth(t.name);
    CalmDepth(Suffix(t));
    var middle := if t.arguments == [] then "" else "<" + PrintAll(t.arguments, pad) + ">";
    if t.arguments == [] {
      CalmDepth("");
    } else {
      PrintAllDepth(t.arguments, pad);
      Bracketed(PrintAll(t.arguments, pad));
    }
    DepthConcat(t.name, middle);
    NeverNegativeConcat(t.name, middle);
    DepthConcat(t.name + middle, Suffix(t));
    NeverNegativeConcat(t.name + middle, Suffix(t));
  }

  /** The depth counter never goes negative while the arguments of a printed type are read, and ends at 0. */
  lemma {:induction false} PrintAllDepth(ts: seq<TypeTree>, pad: string)
    requires (forall i :: 0 <= i < |ts| ==> Bracketless(ts[i])) && IsBlank(pad)
    ensures Depth(PrintAll(ts, pad)) == 0 && NeverNegative(PrintAll(ts, pad))
    decreases ts, 0
  {
    hide Depth, NeverNegative, IsBlank, Print, Bracketless;
    if ts == [] {
      CalmDepth("");
    } else if |ts| == 1 {
      PrintDepth(ts[0], pad);
    } else {
      var head, tail := Print(ts[0], pad), PrintAll(ts[1..], pad);
      PrintDepth(ts[0], pad);
      PrintAllDepth(ts[1..], pad);
      assert IsBlank(pad) && Calm("," + pad, 1) by { PadCalm(pad, 1); }
      CalmDepth("," + pad);
      assert PrintAll(ts, pad) == head + ("," + pad) + tail;
      DepthConcat(head, "," + pad);
      NeverNegativeConcat(head, "," + pad);
      DepthConcat(head + ("," + pad), tail);
      NeverNegativeConcat(head + ("," + pad), tail);
    }
  }

  // ---- the key ----

  function LastSegment(s: string): string { var parts := Split(s, '.'); parts[|parts| - 1] }

  function TypeKey(s: string): string {
    var clean := TrimEnd(Trim(s), '?');
    var start := First(clean, '<');
    if start == |clean| then LastSegment(clean) else LastSegment(clean[..start]) + "`" + Decimal(|Arguments(clean)|)
  }

  lemma BlankInit(s: string)
    requires IsBlank(s) && s != ""
    ensures IsSpace(s[|s| - 1]) && IsBlank(s[..|s| - 1]) && IsBlank("")
  {
  }

  lemma {:induction false} TrimAround(lead: string, s: string, tail: string)
    requires IsBlank(lead) && IsBlank(tail) && s != "" && Trim(s) == s
    ensures Trim(lead + s + tail) == s
    decreases |tail|
  {
    hide IsSpace, IsBlank;
    TrimPad(lead, s + tail);
    assert lead + (s + tail) == lead + s + tail;
    if tail == "" {
      assert s + tail == s;
    } else {
      var n := |tail| - 1;
      assert (s + tail)[..|s + tail| - 1] == s + tail[..n];
      BlankInit(tail);
      assert !IsSpace(s[0]);
      TrimAround("", s, tail[..n]);
      assert "" + s + tail[..n] == s + tail[..n];
    }
  }

  /** The key is the last segment of the name, and the true arity of a generic type, nullable or not, whatever white space
      is around. */
  lemma TypeKeyExactly(t: TypeTree, pad: string, lead: string, tail: string)
    requires Bracketless(t) && Tight(t.name) && IsBlank(pad) && IsBlank(lead) && IsBlank(tail)
    ensures TypeKey(lead + Print(t, pad) + tail) ==
            LastSegment(t.name) + if t.arguments == [] then "" else "`" + Decimal(|t.arguments|)
  {
    hide Print, Arguments, LastSegment, Decimal, Tight, IsBlank, Trim, TrimEnd, Bracketless, First, PrintAll, Trimmed, Prints;
    var bare := t.(nullable := false);
    PrintTight(t, pad);
    TrimAround(lead, Print(t, pad), tail);
    BareBracketless(t);
    if t.arguments == [] {
      PrintedPlain(bare, pad);
      NoSuffix(bare);
      assert LastSegment(t.name) + "" == LastSegment(t.name);
    } else {
      PrintedGeneric(bare, pad);
      ArgumentsRoundTrip(bare, pad);
      CountedArguments(t.arguments, pad);
      NameFirst(bare, pad);
      var arity := Decimal(|t.arguments|);
      assert LastSegment(t.name) + "`" + arity == LastSegment(t.name) + ("`" + arity);
    }
  }

  lemma BareBracketless(t: TypeTree)
    requires Bracketless(t)
    ensures Bracketless(t.(nullable := false))
  {
  }

  lemma NoSuffix(t: TypeTree)
    requires !t.nullable
    ensures t.name + Suffix(t) == t.name
  {
  }

  lemma CountedArguments(arguments: seq<TypeTree>, pad: string)
    ensures |Trimmed(Prints(arguments, pad))| == |arguments|
  {
  }

  lemma NameFirst(t: TypeTree, pad: string)
    requires t.arguments != []
    ensures |t.name| <= |Print(t, pad)| && Print(t, pad)[..|t.name|] == t.name
  {
    hide PrintAll, Print;
    Unfold(t, pad, "");
  }

  /** Qualification does not matter. */
  lemma {:induction false} LastSegmentIs(qualifier: string, segment: string)
    requires Free(segment, '.')
    ensures LastSegment(qualifier + "." + segment) == segment && LastSegment(segment) == segment
  {
    NoSplit(segment, '.');
    var s := qualifier + "." + segment;
    if qualifier == "" {
      assert s[1..] == segment;
      NoSplit(segment, '.');
    } else {
      assert s[1..] == qualifier[1..] + "." + segment;
      LastSegmentIs(qualifier[1..], segment);
      Dotted(qualifier[1..], segment);
    }
  }

  lemma {:induction false} Dotted(qualifier: string, segment: string)
    ensures |Split(qualifier + "." + segment, '.')| >= 2
  {
    var s := qualifier + "." + segment;
    if qualifier == "" {
      assert s[1..] == segment;
    } else {
      assert s[1..] == qualifier[1..] + "." + segment;
      Dotted(qualifier[1..], segment);
    }
  }
}
