/** Reading back what writecourse prints (hw2/src/write.c, hw2/src/read.c): what comes back for every
    course whose strings fit the format, and which courses come back unchanged. */
module CourseRoundTrip {
  import opened CourseText
  import opened CourseReader
  import opened PrintedNumbers

  /** A string that reads back as one token. */
  ghost predicate IsWord(w: string) {
    w != [] && |w| < BUFFER && forall k :: 0 <= k < |w| ==> !Ws(w[k]) && w[k] != '\n'
  }

  /** A string that reads back as the rest of a line. */
  ghost predicate IsLine(t: string) {
    |t| < BUFFER && (t != [] ==> !Ws(t[0])) && forall c :: c in t ==> c != '\n'
  }

  ghost predicate IsNumber(x: real) {
    SixDecimals(x) && |F(x)| < BUFFER
  }

  /** A token ends before s. */
  ghost predicate Boundary(s: string) {
    s != [] && (Ws(s[0]) || s[0] == '\n')
  }

  /** Neither a comment nor a blank line follows. */
  ghost predicate NextLine(s: string) {
    s != [] ==> s[0] == ' '
  }

  /** The state with the next token of s in the buffer. */
  ghost function Peek(s: string, e: nat): Outcome<In> {
    Advanced(In(s, None, e))
  }

  // ---------- the lexer on printed text ----------

  lemma {:induction false} WordLenOf(w: string, rest: string)
    requires (forall k :: 0 <= k < |w| ==> !Ws(w[k]) && w[k] != '\n') && Boundary(rest)
    ensures WordLen(w + rest) == |w|
    decreases |w|
  {
    if w == [] {
      assert w + rest == rest;
    } else {
      assert (w + rest)[1..] == w[1..] + rest;
      WordLenOf(w[1..], rest);
    }
  }

  lemma {:induction false} LineLenOf(t: string, rest: string)
    requires forall c :: c in t ==> c != '\n'
    ensures LineLen(t + EndLine(rest)) == |t|
    decreases |t|
  {
    if t == [] {
      assert t + EndLine(rest) == EndLine(rest);
    } else {
      assert t[0] in t && (t + EndLine(rest))[1..] == t[1..] + EndLine(rest);
      assert forall c :: c in t[1..] ==> c in t;
      LineLenOf(t[1..], rest);
    }
  }

  lemma GobbledOne(c: char, s: string)
    requires Ws(c)
    ensures Gobbled([c] + s) == Gobbled(s)
  {
    assert ([c] + s)[1..] == s;
  }

  lemma PeekPast(c: char, s: string, e: nat)
    requires Ws(c)
    ensures Peek([c] + s, e) == Peek(s, e)
  {
    GobbledOne(c, s);
  }

  lemma PeekField(w: string, rest: string, e: nat)
    requires IsWord(w) && Boundary(rest)
    ensures Peek(Field(w, rest), e) == Fine(In(rest, Some(w), e))
  {
    GobbledOne(' ', w + rest);
    assert Gobbled(w + rest) == w + rest;
    WordLenOf(w, rest);
    assert (w + rest)[|w|..] == rest && (w + rest)[..|w|] == w;
  }

  /** A " %s" and a "%s" after a comma and blank, up to the end of the line. */
  lemma EolField(t: string, rest: string, e: nat)
    requires IsLine(t)
    ensures AdvancedEol(In(Field(t, EndLine(rest)), None, e)) == Fine(In(EndLine(rest), Some(t), e))
    ensures AdvancedEol(In("," + Field(t, EndLine(rest)), None, e)) == Fine(In(EndLine(rest), Some(t), e))
  {
    var s := t + EndLine(rest);
    GobbledOne(' ', s);
    GobbledOne(',', Field(t, EndLine(rest)));
    assert Gobbled(s) == s;
    LineLenOf(t, rest);
    assert s[|t|..] == EndLine(rest) && s[..|t|] == t;
  }

  lemma LineEnds(rest: string, e: nat)
    requires NextLine(rest)
    ensures NewlineExpected(In(EndLine(rest), None, e)) == Fine(In(rest, None, e))
  {
    assert EndLine(rest)[1..] == rest;
    assert BlanksGobbled(rest) == Fine(rest);
  }

  lemma NameBack(t: string, rest: string, e: nat)
    requires IsLine(t) && NextLine(rest)
    ensures Name(In(Field(t, EndLine(rest)), None, e)) == Fine(Read(t, In(rest, None, e)))
    ensures Name(In("," + Field(t, EndLine(rest)), None, e)) == Fine(Read(t, In(rest, None, e)))
  {
    EolField(t, rest, e);
    LineEnds(rest, e);
  }

  lemma WordBack(w: string, rest: string, e: nat)
    requires IsWord(w) && Boundary(rest)
    ensures Word(In(Field(w, rest), None, e)) == Fine(Read(w, In(rest, None, e)))
  {
    PeekField(w, rest, e);
  }

  lemma NumberIsWord(x: real)
    requires IsNumber(x)
    ensures IsWord(F(x))
  {
    hide F;
    NumberChars(x);
    var w := F(x);
    forall k | 0 <= k < |w| ensures !Ws(w[k]) && w[k] != '\n' {
      assert w[k] in w;
    }
  }

  lemma NumberReadBack(x: real, rest: string, e: nat)
    requires IsNumber(x) && Boundary(rest)
    ensures Number(In(Field(F(x), rest), None, e)) == Fine(Read(Some(x), In(rest, None, e)))
  {
    NumberIsWord(x);
    PeekField(F(x), rest, e);
    NumberBack(x);
  }

  /** The state i reads on as if the text s came next, token or not. */
  ghost predicate At(i: In, s: string, e: nat) {
    Ready(i).Fine? && Ready(i) == Peek(s, e)
  }

  lemma CheckYes(i: In, key: string, rest: string, e: nat)
    requires At(i, Field(key, rest), e) && IsWord(key) && Boundary(rest)
    ensures Check(i, key) == Fine(Read(true, In(rest, None, e)))
  {
    PeekField(key, rest, e);
  }

  lemma PeekAgain(s: string, e: nat)
    ensures Peek(s, e).Fine? == Peek(s, 0).Fine?
    ensures Peek(s, e).Fine? ==>
      Peek(s, e).value == Peek(s, 0).value.(errors := e) && Ready(Peek(s, e).value) == Peek(s, e)
  {
    if Peek(s, e).Fine? && Peek(s, e).value.token.None? {
      assert Gobbled(Gobbled(s)) == Gobbled(s);
      assert WordLen(Gobbled(s)) == 0;
      assert Gobbled(s)[0..] == Gobbled(s);
    }
  }

  /** A line of s comes next, and begins with one of the keywords; or nothing comes. */
  ghost predicate Next(s: string, keys: set<string>) {
    && NextLine(s)
    && Peek(s, 0).Fine?
    && (Peek(s, 0).value.token.Some? ==> Peek(s, 0).value.token.value in keys)
  }

  lemma NextKey(key: string, rest: string, keys: set<string>)
    requires IsWord(key) && key in keys && Boundary(rest)
    ensures Next(Field(key, rest), keys) && Next(" " + Field(key, rest), keys) && Next("  " + Field(key, rest), keys)
  {
    var s := Field(key, rest);
    PeekField(key, rest, 0);
    PeekPast(' ', s, 0);
    PeekPast(' ', " " + s, 0);
    assert [' '] + (" " + s) == "  " + s && [' '] + s == " " + s;
  }

  lemma NextMore(s: string, keys: set<string>, more: set<string>)
    requires Next(s, keys) && keys <= more
    ensures Next(s, more)
  {
  }

  /** A keyword that does not come next is not found, and the token stays in the buffer. */
  lemma CheckNo(i: In, s: string, keys: set<string>, key: string, e: nat)
    requires At(i, s, e) && Next(s, keys) && key !in keys
    ensures Check(i, key) == Fine(Read(false, Peek(s, e).value)) && At(Peek(s, e).value, s, e)
  {
    PeekAgain(s, e);
  }

  lemma AtStart(s: string, keys: set<string>, e: nat)
    requires Next(s, keys)
    ensures At(In(s, None, e), s, e)
  {
    PeekAgain(s, e);
  }

  lemma Keywords()
    ensures IsWord("COURSE") && IsWord("PROFESSOR") && IsWord("ASSIGNMENT") && IsWord("SECTION") && IsWord("ASSISTANT")
    ensures IsWord("STUDENT") && IsWord("SCORE")
  {
  }

  lemma DetailKeywords()
    ensures IsWord("WEIGHT") && IsWord("NORMALIZE") && IsWord("MAXIMUM")
  {
  }

  lemma NormKeywords()
    ensures IsWord("LINEAR") && IsWord("QUANTILE") && IsWord("SCALE") && IsWord("BYCLASS") && IsWord("BYSECTION")
  {
  }

  lemma GradeKeywords()
    ensures IsWord("USERAW") && IsWord("USENORM") && IsWord("USELIKEAVG") && IsWord("USECLASSAVG")
  {
  }

  // ---------- persons ----------

  ghost predicate FitsPerson(p: Person) {
    IsWord(p.surname) && IsLine(p.name)
  }

  lemma PersonBack(key: string, p: Option<Person>, rest: string, keys: set<string>, i: In, e: nat)
    requires IsWord(key) && (p.Some? ==> FitsPerson(p.value)) && Next(rest, keys) && key !in keys
    requires At(i, PutPersonLine(key, p, rest), e)
    ensures PersonRead(key, i).Fine? && PersonRead(key, i).value.value == p &&
      At(PersonRead(key, i).value.next, rest, e)
  {
    hide IsWord, IsLine, Field, EndLine, Name, Word;
    if p.None? {
      CheckNo(i, rest, keys, key, e);
    } else {
      var tail := "," + Field(p.value.name, EndLine(rest));
      Boundaries(p.value.surname, tail);
      CheckYes(i, key, Field(p.value.surname, tail), e);
      WordBack(p.value.surname, tail, e);
      NameBack(p.value.name, rest, e);
      AtStart(rest, keys, e);
    }
  }

  lemma Boundaries(w: string, rest: string)
    ensures Boundary(Field(w, rest)) && Boundary("," + rest) && Boundary(":" + rest) && Boundary(EndLine(rest))
  {
  }

  // ---------- assignments ----------

  ghost predicate FitsPolicy(p: Policy) {
    p.Scale? ==> IsNumber(p.scale)
  }

  ghost predicate FitsAssignment(a: Assignment) {
    IsWord(a.name) && IsWord(a.atype) && (a.weight.Some? ==> IsNumber(a.weight.value)) && FitsPolicy(a.policy) &&
      IsNumber(a.max)
  }

  /** What the reader makes of a printed assignment: LINEAR is not a keyword it knows, and the group is
      printed only with a policy. */
  ghost function RereadAssignment(a: Assignment): Assignment {
    if RereadPolicy(a.policy).Raw? then a.(policy := Raw, group := ByClass) else a
  }

  ghost function RereadPolicy(p: Policy): Policy {
    if p.Linear? then Raw else p
  }

  /** The errors it reports. */
  ghost function Complaints(a: Assignment): nat {
    if a.policy.Linear? then 2 else 0
  }

  /** Nothing but the end of the line follows the group. */
  lemma NormWordsEnd(b: Assignment, rest: string, e: nat)
    ensures NormWords(b, In(EndLine(rest), None, e), true) == Fine(Read((b, true), In(EndLine(rest), None, e)))
  {
    assert Gobbled(EndLine(rest)) == EndLine(rest) && WordLen(EndLine(rest)) == 0;
    assert EndLine(rest)[0..] == EndLine(rest);
  }

  lemma NormGroup(b: Assignment, g: Group, rest: string, e: nat)
    ensures NormWords(b, In(PutGroup(g, rest), None, e), true) ==
            Fine(Read((b.(group := g), true), In(EndLine(rest), None, e)))
  {
    NormKeywords();
    var key := if g.ByClass? then "BYCLASS" else "BYSECTION";
    Boundaries(key, rest);
    PeekField(key, EndLine(rest), e);
    NormWordsEnd(b.(group := g), rest, e);
  }

  lemma NormQuantile(b: Assignment, g: Group, rest: string, e: nat)
    ensures Norm(b, In(Field("QUANTILE", PutGroup(g, rest)), None, e)) ==
            Fine(Read(b.(policy := Quantile, group := g), In(EndLine(rest), None, e)))
  {
    NormKeywords();
    Boundaries("BYCLASS", EndLine(rest));
    Boundaries("BYSECTION", EndLine(rest));
    PeekField("QUANTILE", PutGroup(g, rest), e);
    NormGroup(b.(policy := Quantile), g, rest, e);
  }

  lemma NormScale(b: Assignment, x: real, g: Group, rest: string, e: nat)
    requires IsNumber(x)
    ensures Norm(b, In(Field("SCALE", Field(F(x), PutGroup(g, rest))), None, e)) ==
            Fine(Read(b.(policy := Scale(x), group := g), In(EndLine(rest), None, e)))
  {
    hide F;
    NormKeywords();
    Boundaries("BYCLASS", EndLine(rest));
    Boundaries("BYSECTION", EndLine(rest));
    Boundaries(F(x), PutGroup(g, rest));
    PeekField("SCALE", Field(F(x), PutGroup(g, rest)), e);
    NumberReadBack(x, PutGroup(g, rest), e);
    NormGroup(b.(policy := Scale(x)), g, rest, e);
  }

  /** An unknown policy is an error, and the rest of its line is skipped with another. */
  lemma NormLinear(b: Assignment, mean: real, dev: real, g: Group, rest: string, e: nat)
    requires b.policy == Raw && b.group == ByClass
    ensures var i := In(Field("LINEAR", ":" + Field(F(mean), "," + Field(F(dev), PutGroup(g, rest)))), None, e);
      Norm(b, i).Fine? && Norm(b, i).value.value == b &&
        NewlineExpected(Norm(b, i).value.next) == Fine(In(rest, None, e + 2))
  {
    hide F;
    NormKeywords();
    var tail := ":" + Field(F(mean), "," + Field(F(dev), PutGroup(g, rest)));
    Boundaries("", Field(F(mean), "," + Field(F(dev), PutGroup(g, rest))));
    PeekField("LINEAR", tail, e);
    LinearTail(mean, dev, g, rest);
  }

  lemma LinearTail(mean: real, dev: real, g: Group, rest: string)
    ensures LineSkipped(":" + Field(F(mean), "," + Field(F(dev), PutGroup(g, rest)))) == Fine(rest)
  {
    hide F, LineSkipped, EndLine;
    NumberChars(mean);
    NumberChars(dev);
    var key := if g.ByClass? then "BYCLASS" else "BYSECTION";
    var t := LinearText(F(mean), F(dev), key, EndLine(rest));
    LineSkippedAfter(t, rest);
  }

  /** The unread part of such a line in one piece. */
  lemma LinearText(m: string, d: string, key: string, rest: string) returns (t: string)
    requires '\n' !in m && '\n' !in d && '\n' !in key
    ensures '\n' !in t && ":" + Field(m, "," + Field(d, Field(key, rest))) == t + rest
  {
    var u := ", " + d + " " + key;
    assert "," + Field(d, Field(key, rest)) == u + rest;
    t := ": " + m + u;
  }

  lemma LineSkippedAfter(t: string, rest: string)
    requires '\n' !in t
    ensures LineSkipped(t + EndLine(rest)) == Fine(rest)
  {
    LineLenOf(t, rest);
    assert (t + EndLine(rest))[|t| + 1..] == rest;
  }

  ghost predicate AfterAssignment(rest: string) {
    Next(rest, {"ASSIGNMENT", "SECTION"})
  }

  lemma DetailsEnd(b: Assignment, i: In, rest: string, e: nat)
    requires AfterAssignment(rest) && At(i, rest, e)
    ensures Details(b, i) == Fine(Read(b, Peek(rest, e).value))
  {
    hide Next, At, Peek;
    var keys := {"ASSIGNMENT", "SECTION"};
    CheckNo(i, rest, keys, "WEIGHT", e);
    CheckNo(Peek(rest, e).value, rest, keys, "NORMALIZE", e);
    CheckNo(Peek(rest, e).value, rest, keys, "MAXIMUM", e);
  }

  /** The outcome of a check against the word w: it is removed if it matches, else it stays. */
  ghost function Checked(matches: bool, w: string, rest: string, e: nat): Read<bool> {
    if matches then Read(true, In(rest, None, e)) else Read(false, In(rest, Some(w), e))
  }

  /** Checking for other keywords before the one that comes next. */
  lemma CheckPast(i: In, key: string, rest: string, e: nat)
    requires At(i, " " + Field(key, rest), e) && IsWord(key) && Boundary(rest)
    ensures forall k: string ::
      Check(i, k) == Fine(Checked(k == key, key, rest, e))
    ensures forall k: string ::
      Check(In(rest, Some(key), e), k) == Fine(Checked(k == key, key, rest, e))
  {
    assert " " + Field(key, rest) == [' '] + Field(key, rest);
    PeekPast(' ', Field(key, rest), e);
    PeekField(key, rest, e);
  }

  lemma NextMax(a: Assignment, rest: string)
    requires AfterAssignment(rest)
    ensures Next(PutMax(a, rest), {"MAXIMUM", "ASSIGNMENT", "SECTION"})
  {
    hide F;
    DetailKeywords();
    if a.max == 0.0 {
      NextMore(rest, {"ASSIGNMENT", "SECTION"}, {"MAXIMUM", "ASSIGNMENT", "SECTION"});
    } else {
      Boundaries(F(a.max), EndLine(rest));
      NextKey("MAXIMUM", Field(F(a.max), EndLine(rest)), {"MAXIMUM", "ASSIGNMENT", "SECTION"});
    }
  }

  lemma DetailsMax(a: Assignment, b: Assignment, i: In, rest: string, e: nat)
    requires FitsAssignment(a) && b.max == 0.0 && AfterAssignment(rest) && At(i, PutMax(a, rest), e)
    ensures Details(b, i) == Fine(Read(b.(max := a.max), Peek(rest, e).value))
  {
    hide F, Next, At, Peek, IsNumber, IsWord, Check, Number, NewlineExpected;
    if a.max == 0.0 {
      DetailsEnd(b, i, rest, e);
    } else {
      DetailKeywords();
      Boundaries(F(a.max), EndLine(rest));
      Boundaries("", rest);
      CheckPast(i, "MAXIMUM", Field(F(a.max), EndLine(rest)), e);
      NumberReadBack(a.max, EndLine(rest), e);
      NextIsLine(rest, {"ASSIGNMENT", "SECTION"});
      LineEnds(rest, e);
      AtStart(rest, {"ASSIGNMENT", "SECTION"}, e);
      DetailsEnd(b.(max := a.max), In(rest, None, e), rest, e);
    }
  }

  lemma NextIsLine(s: string, keys: set<string>)
    requires Next(s, keys)
    ensures NextLine(s)
  {
  }

  lemma NextPolicy(a: Assignment, s: string)
    requires Next(s, {"MAXIMUM", "ASSIGNMENT", "SECTION"})
    ensures Next(PutPolicy(a, s), {"NORMALIZE", "MAXIMUM", "ASSIGNMENT", "SECTION"})
  {
    hide F, PutGroup, Next;
    var keys := {"NORMALIZE", "MAXIMUM", "ASSIGNMENT", "SECTION"};
    DetailKeywords();
    match a.policy {
      case Raw => NextMore(s, {"MAXIMUM", "ASSIGNMENT", "SECTION"}, keys);
      case Linear(mean, dev) =>
        Boundaries("LINEAR", ":" + Field(F(mean), "," + Field(F(dev), PutGroup(a.group, s))));
        NextKey("NORMALIZE", Field("LINEAR", ":" + Field(F(mean), "," + Field(F(dev), PutGroup(a.group, s)))), keys);
      case Quantile =>
        Boundaries("QUANTILE", PutGroup(a.group, s));
        NextKey("NORMALIZE", Field("QUANTILE", PutGroup(a.group, s)), keys);
      case Scale(x) =>
        Boundaries("SCALE", Field(F(x), PutGroup(a.group, s)));
        NextKey("NORMALIZE", Field("SCALE", Field(F(x), PutGroup(a.group, s))), keys);
    }
  }

  lemma NormBack(a: Assignment, b: Assignment, i: In, s: string, e: nat)
    requires FitsPolicy(a.policy) && !a.policy.Raw? && b.policy == Raw && b.group == ByClass &&
      At(i, PutPolicy(a, s), e) && NextLine(s)
    ensures Check(i, "WEIGHT").Fine? && !Check(i, "WEIGHT").value.value
    ensures var j := Check(i, "WEIGHT").value.next;
      && Check(j, "NORMALIZE").Fine? && Check(j, "NORMALIZE").value.value
      && var r := Norm(b, Check(j, "NORMALIZE").value.next);
         r.Fine? && r.value.value == b.(policy := RereadAssignment(a).policy, group := RereadAssignment(a).group)
         && NewlineExpected(r.value.next) == Fine(In(s, None, e + Complaints(a)))
  {
    hide F, PutGroup, At, Norm, IsNumber, NewlineExpected;
    DetailKeywords();
    match a.policy {
      case Linear(mean, dev) =>
        var t := Field("LINEAR", ":" + Field(F(mean), "," + Field(F(dev), PutGroup(a.group, s))));
        Boundaries("LINEAR", ":" + Field(F(mean), "," + Field(F(dev), PutGroup(a.group, s))));
        CheckPast(i, "NORMALIZE", t, e);
        NormLinear(b, mean, dev, a.group, s, e);
      case Quantile =>
        Boundaries("QUANTILE", PutGroup(a.group, s));
        CheckPast(i, "NORMALIZE", Field("QUANTILE", PutGroup(a.group, s)), e);
        NormQuantile(b, a.group, s, e);
        LineEnds(s, e);
      case Scale(x) =>
        Boundaries("SCALE", Field(F(x), PutGroup(a.group, s)));
        CheckPast(i, "NORMALIZE", Field("SCALE", Field(F(x), PutGroup(a.group, s))), e);
        NormScale(b, x, a.group, s, e);
        LineEnds(s, e);
    }
  }

  lemma DetailsPolicy(a: Assignment, b: Assignment, i: In, rest: string, e: nat)
    requires FitsAssignment(a) && b.max == 0.0 && b.policy == Raw && b.group == ByClass
    requires AfterAssignment(rest) && At(i, PutPolicy(a, PutMax(a, rest)), e)
    ensures Details(b, i) == Fine(Read(b.(policy := RereadAssignment(a).policy, group := RereadAssignment(a).group,
      max := a.max),
                                       Peek(rest, e + Complaints(a)).value))
  {
    hide F, Next, At, Peek, IsNumber, IsWord, Check, Norm, NewlineExpected, PutMax;
    var s := PutMax(a, rest);
    if a.policy.Raw? {
      DetailsMax(a, b, i, rest, e);
    } else {
      NextMax(a, rest);
      NextIsLine(s, {"MAXIMUM", "ASSIGNMENT", "SECTION"});
      NormBack(a, b, i, s, e);
      AtStart(s, {"MAXIMUM", "ASSIGNMENT", "SECTION"}, e + Complaints(a));
      DetailsMax(a, b.(policy := RereadAssignment(a).policy, group := RereadAssignment(a).group),
        In(s, None, e + Complaints(a)), rest, e + Complaints(a));
    }
  }

  lemma DetailsBack(a: Assignment, i: In, rest: string, e: nat)
    requires FitsAssignment(a) && AfterAssignment(rest) && At(i, PutWeight(a, PutPolicy(a, PutMax(a, rest))), e)
    ensures Details(Assignment(a.name, a.atype, None, Raw, ByClass, 0.0), i) ==
      Fine(Read(RereadAssignment(a), Peek(rest, e + Complaints(a)).value))
  {
    hide F, Next, At, Peek, IsNumber, IsWord, Check, Number, NewlineExpected, PutMax, PutPolicy;
    var b := Assignment(a.name, a.atype, None, Raw, ByClass, 0.0);
    var s := PutPolicy(a, PutMax(a, rest));
    if a.weight.None? {
      DetailsPolicy(a, b, i, rest, e);
    } else {
      var w := a.weight.value;
      DetailKeywords();
      Boundaries(F(w), EndLine(s));
      Boundaries("", s);
      CheckPast(i, "WEIGHT", Field(F(w), EndLine(s)), e);
      NumberReadBack(w, EndLine(s), e);
      NextMax(a, rest);
      NextPolicy(a, PutMax(a, rest));
      NextIsLine(s, {"NORMALIZE", "MAXIMUM", "ASSIGNMENT", "SECTION"});
      LineEnds(s, e);
      AtStart(s, {"NORMALIZE", "MAXIMUM", "ASSIGNMENT", "SECTION"}, e);
      DetailsPolicy(a, b.(weight := Some(w)), In(s, None, e), rest, e);
    }
  }

  ghost predicate FitsAssignments(asgts: seq<Assignment>) {
    forall a :: a in asgts ==> FitsAssignment(a)
  }

  ghost function RereadAssignments(asgts: seq<Assignment>): (r: seq<Assignment>)
    ensures |r| == |asgts| && forall k :: 0 <= k < |r| ==> r[k] == RereadAssignment(asgts[k])
  {
    if asgts == [] then [] else [RereadAssignment(asgts[0])] + RereadAssignments(asgts[1..])
  }

  ghost function AllComplaints(asgts: seq<Assignment>): nat {
    if asgts == [] then 0 else Complaints(asgts[0]) + AllComplaints(asgts[1..])
  }

  lemma NextAssignments(asgts: seq<Assignment>, rest: string)
    requires Next(rest, {"SECTION"})
    ensures AfterAssignment(PutAssignments(asgts, rest))
  {
    Keywords();
    if asgts == [] {
      NextMore(rest, {"SECTION"}, {"ASSIGNMENT", "SECTION"});
    } else {
      var a := asgts[0];
      var tail := Field(a.atype, EndLine(PutWeight(a, PutPolicy(a, PutMax(a, PutAssignments(asgts[1..], rest))))));
      Boundaries(a.name, tail);
      NextKey("ASSIGNMENT", Field(a.name, tail), {"ASSIGNMENT", "SECTION"});
    }
  }

  lemma NextWeight(a: Assignment, rest: string)
    requires AfterAssignment(rest)
    ensures NextLine(PutWeight(a, PutPolicy(a, PutMax(a, rest))))
  {
    NextMax(a, rest);
    NextPolicy(a, PutMax(a, rest));
  }

  /** One assignment comes back as RereadAssignment says. */
  lemma {:induction false} AssignmentsBack(asgts: seq<Assignment>, i: In, rest: string, e: nat)
    requires FitsAssignments(asgts) && Next(rest, {"SECTION"}) && At(i, PutAssignments(asgts, rest), e)
    ensures Assignments(i) == Fine(Read(RereadAssignments(asgts), Peek(rest, e + AllComplaints(asgts)).value))
    decreases |asgts|
  {
    hide F, Next, At, Peek, IsNumber, IsWord, Check, Word, Details, NewlineExpected, PutMax, PutPolicy, PutWeight,
      RereadAssignment, Complaints;
    Keywords();
    if asgts == [] {
      CheckNo(i, rest, {"SECTION"}, "ASSIGNMENT", e);
    } else {
      var a := asgts[0];
      var more := PutAssignments(asgts[1..], rest);
      var w := PutWeight(a, PutPolicy(a, PutMax(a, more)));
      var c := e + Complaints(a);
      assert FitsAssignment(a);
      Boundaries(a.name, Field(a.atype, EndLine(w)));
      Boundaries(a.atype, EndLine(w));
      Boundaries("", w);
      CheckYes(i, "ASSIGNMENT", Field(a.name, Field(a.atype, EndLine(w))), e);
      WordBack(a.name, Field(a.atype, EndLine(w)), e);
      WordBack(a.atype, EndLine(w), e);
      NextAssignments(asgts[1..], rest);
      NextWeight(a, more);
      LineEnds(w, e);
      StartOfDetails(a, more, e);
      DetailsBack(a, In(w, None, e), more, e);
      NextAt(more, {"ASSIGNMENT", "SECTION"}, c);
      AssignmentsBack(asgts[1..], Peek(more, c).value, rest, c);
    }
  }

  lemma StartOfDetails(a: Assignment, rest: string, e: nat)
    requires AfterAssignment(rest)
    ensures var w := PutWeight(a, PutPolicy(a, PutMax(a, rest))); At(In(w, None, e), w, e)
  {
    hide F;
    DetailKeywords();
    NextMax(a, rest);
    NextPolicy(a, PutMax(a, rest));
    var s := PutPolicy(a, PutMax(a, rest));
    var keys := {"WEIGHT", "NORMALIZE", "MAXIMUM", "ASSIGNMENT", "SECTION"};
    if a.weight.None? {
      NextMore(s, {"NORMALIZE", "MAXIMUM", "ASSIGNMENT", "SECTION"}, keys);
    } else {
      Boundaries(F(a.weight.value), EndLine(s));
      NextKey("WEIGHT", Field(F(a.weight.value), EndLine(s)), keys);
    }
    AtStart(PutWeight(a, s), keys, e);
  }

  /** A state that looks ahead into s reads on as s. */
  lemma NextAt(s: string, keys: set<string>, e: nat)
    requires Next(s, keys)
    ensures Peek(s, e).Fine? && At(Peek(s, e).value, s, e)
  {
    PeekAgain(s, e);
  }

  // ---------- scores ----------

  ghost predicate FitsEntry(e: Entry, policy: Policy) {
    match e
    case Valid(grade) => IsNumber(grade)
    case UseRaw(grade, code) => IsNumber(grade) && IsLine(code)
    case UseNorm(q, l, s, code) =>
      (match policy
       case Raw => IsLine(code)
       case Quantile => IsNumber(q) && IsLine("USELIKEAVG " + code)
       case Linear(_, _) => IsNumber(l) && IsLine("USELIKEAVG " + code)
       case Scale(_) => IsNumber(s) && IsLine("USELIKEAVG " + code))
    case UseLikeAvg(code) => IsLine(code)
    case UseClassAvg(code) => IsLine(code)
  }

  /** What the reader makes of a printed entry: a USENORM swallows the keyword after it as its code. */
  ghost function RereadEntry(e: Entry, policy: Policy): Entry {
    if e.UseNorm? then
      (match policy
       case Raw => UseLikeAvg(e.code)
       case Quantile => UseNorm(e.qnorm, e.qnorm, e.qnorm, "USELIKEAVG " + e.code)
       case Linear(_, _) => UseNorm(e.lnorm, e.lnorm, e.lnorm, "USELIKEAVG " + e.code)
       case Scale(_) => UseNorm(e.snorm, e.snorm, e.snorm, "USELIKEAVG " + e.code))
    else e
  }

  /** A USENORM score outside its range is reported. */
  ghost function EntryComplaints(e: Entry, policy: Policy): nat {
    if e.UseNorm? && OutOfRange(policy, if policy.Quantile? then e.qnorm else e.snorm) then 1 else 0
  }

  /** Only USENORM scores are reported: a quantile outside [0, 100] and a scaled score outside [0, scale]. */
  lemma ComplaintsMean(e: Entry, policy: Policy)
    ensures !e.UseNorm? || policy.Raw? || policy.Linear? ==> EntryComplaints(e, policy) == 0
    ensures e.UseNorm? && policy.Quantile? ==>
      EntryComplaints(e, policy) == if 0.0 <= e.qnorm <= 100.0 then 0 else 1
    ensures e.UseNorm? && policy.Scale? ==>
      EntryComplaints(e, policy) == if 0.0 <= e.snorm <= policy.scale then 0 else 1
  {
  }

  lemma CodeBack(code: string, rest: string, e: nat)
    requires IsLine(code)
    ensures Code(In(Field(code, EndLine(rest)), None, e)) == Fine(Read(code, In(EndLine(rest), None, e)))
  {
    EolField(code, rest, e);
  }

  /** As CheckPast, without the indentation. */
  lemma CheckWord(w: string, rest: string, e: nat)
    requires IsWord(w) && Boundary(rest)
    ensures forall k: string ::
      Check(In(Field(w, rest), None, e), k) == Fine(Checked(k == w, w, rest, e))
    ensures forall k: string ::
      Check(In(rest, Some(w), e), k) == Fine(Checked(k == w, w, rest, e))
  {
    PeekField(w, rest, e);
  }

  lemma NotANumber(x: real, key: string)
    requires key != [] && key[0] == 'U'
    ensures F(x) != key
  {
    hide F;
    NumberChars(x);
    assert F(x)[0] in F(x);
  }

  lemma GradeNorm(p: Policy, x: real, code: string, rest: string, e: nat)
    requires IsNumber(x) && IsLine("USELIKEAVG " + code)
    ensures Grade(p, In(Field("USENORM", Field(F(x), Field("USELIKEAVG", Field(code, EndLine(rest))))), None, e)) ==
      Fine(Read(UseNorm(x, x, x, "USELIKEAVG " + code), In(EndLine(rest), None, e + if OutOfRange(p, x) then 1 else 0)))
  {
    hide F, Check, Number, Code, IsNumber, IsWord, IsLine, Boundary, OutOfRange;
    GradeKeywords();
    var tail := Field("USELIKEAVG", Field(code, EndLine(rest)));
    assert tail == Field("USELIKEAVG " + code, EndLine(rest));
    Boundaries(F(x), tail);
    Boundaries("USELIKEAVG", Field(code, EndLine(rest)));
    CheckWord("USENORM", Field(F(x), tail), e);
    NumberReadBack(x, tail, e);
    CodeBack("USELIKEAVG " + code, rest, if OutOfRange(p, x) then e + 1 else e);
  }

  lemma GradeBack(entry: Entry, policy: Policy, rest: string, e: nat)
    requires FitsEntry(entry, policy)
    ensures Grade(RereadPolicy(policy), In(PutEntry(entry, policy, EndLine(rest)), None, e)) ==
      Fine(Read(RereadEntry(entry, policy), In(EndLine(rest), None, e + EntryComplaints(entry, policy))))
  {
    hide F, Check, Number, Code, IsNumber, IsWord, IsLine, Boundary;
    GradeKeywords();
    Boundaries("", rest);
    match entry {
      case Valid(x) =>
        NumberIsWord(x);
        CheckWord(F(x), EndLine(rest), e);
        NotANumber(x, "USERAW");
        NotANumber(x, "USENORM");
        NotANumber(x, "USELIKEAVG");
        NotANumber(x, "USECLASSAVG");
        NumberBuffered(x, EndLine(rest), e);
      case UseRaw(x, code) =>
        Boundaries(F(x), Field(code, EndLine(rest)));
        Boundaries(code, EndLine(rest));
        CheckWord("USERAW", Field(F(x), Field(code, EndLine(rest))), e);
        NumberReadBack(x, Field(code, EndLine(rest)), e);
        CodeBack(code, rest, e);
      case UseNorm(q, l, s, code) =>
        match policy {
          case Raw =>
            Boundaries(code, EndLine(rest));
            CheckWord("USELIKEAVG", Field(code, EndLine(rest)), e);
            CodeBack(code, rest, e);
          case Quantile => GradeNorm(RereadPolicy(policy), q, code, rest, e);
          case Linear(_, _) => GradeNorm(RereadPolicy(policy), l, code, rest, e);
          case Scale(_) => GradeNorm(RereadPolicy(policy), s, code, rest, e);
        }
      case UseLikeAvg(code) =>
        Boundaries(code, EndLine(rest));
        CheckWord("USELIKEAVG", Field(code, EndLine(rest)), e);
        CodeBack(code, rest, e);
      case UseClassAvg(code) =>
        Boundaries(code, EndLine(rest));
        CheckWord("USECLASSAVG", Field(code, EndLine(rest)), e);
        CodeBack(code, rest, e);
    }
  }

  lemma NumberBuffered(x: real, rest: string, e: nat)
    requires IsNumber(x)
    ensures Number(In(rest, Some(F(x)), e)) == Fine(Read(Some(x), In(rest, None, e)))
  {
    NumberBack(x);
  }

  ghost predicate NamesDiffer(asgts: seq<Assignment>) {
    forall j, k :: 0 <= j < k < |asgts| ==> asgts[j].name != asgts[k].name
  }

  ghost predicate FitsScores(asgts: seq<Assignment>, ss: seq<Score>) {
    forall s :: s in ss ==> s.asgt < |asgts| && IsWord(asgts[s.asgt].name) && FitsEntry(s.entry, asgts[s.asgt].policy)
  }

  ghost function RereadScores(asgts: seq<Assignment>, ss: seq<Score>): seq<Score>
    requires ScoresIn(asgts, ss)
  {
    if ss == [] then []
    else [Score(ss[0].asgt, RereadEntry(ss[0].entry, asgts[ss[0].asgt].policy))] + RereadScores(asgts, ss[1..])
  }

  ghost function ScoreComplaints(asgts: seq<Assignment>, ss: seq<Score>): nat
    requires ScoresIn(asgts, ss)
  {
    if ss == [] then 0
    else EntryComplaints(ss[0].entry, asgts[ss[0].asgt].policy) + ScoreComplaints(asgts, ss[1..])
  }

  lemma FindIt(asgts: seq<Assignment>, read: seq<Assignment>, n: nat)
    requires NamesDiffer(asgts) && read == RereadAssignments(asgts) && n < |asgts|
    ensures Find(read, asgts[n].name) == n && n < |read| && read[n].policy == RereadPolicy(asgts[n].policy)
  {
    assert read[n] == RereadAssignment(asgts[n]) && asgts[n].name == read[n].name;
    var m := Find(read, asgts[n].name);
    assert m <= n;
    assert read[m] == RereadAssignment(asgts[m]);
    assert asgts[m].name == asgts[n].name;
  }

  lemma NextScores(asgts: seq<Assignment>, ss: seq<Score>, rest: string)
    requires ScoresIn(asgts, ss) && Next(rest, {"STUDENT", "SECTION"})
    ensures Next(PutScores(asgts, ss, rest), {"SCORE", "STUDENT", "SECTION"})
  {
    hide PutEntry, Next;
    var keys := {"SCORE", "STUDENT", "SECTION"};
    Keywords();
    if ss == [] {
      NextMore(rest, {"STUDENT", "SECTION"}, keys);
    } else {
      var s := ss[0];
      var tail := PutEntry(s.entry, asgts[s.asgt].policy, EndLine(PutScores(asgts, ss[1..], rest)));
      Boundaries(asgts[s.asgt].name, tail);
      NextKey("SCORE", Field(asgts[s.asgt].name, tail), keys);
    }
  }

  lemma EntryBoundary(entry: Entry, policy: Policy, rest: string)
    ensures Boundary(PutEntry(entry, policy, rest))
  {
    hide F;
  }

  lemma CheckScore(i: In, rest: string, e: nat)
    requires At(i, "  " + Field("SCORE", rest), e) && Boundary(rest)
    ensures Check(i, "SCORE") == Fine(Read(true, In(rest, None, e)))
  {
    hide IsWord;
    Keywords();
    var s := Field("SCORE", rest);
    assert "  " + s == [' '] + (" " + s) && " " + s == [' '] + s;
    PeekPast(' ', " " + s, e);
    PeekPast(' ', s, e);
    PeekField("SCORE", rest, e);
  }

  lemma {:induction false} ScoresBack(asgts: seq<Assignment>, read: seq<Assignment>, ss: seq<Score>, i: In,
                                      rest: string, e: nat)
    requires NamesDiffer(asgts) && read == RereadAssignments(asgts)
    requires ScoresIn(asgts, ss) && FitsScores(asgts, ss) && Next(rest, {"STUDENT", "SECTION"})
    requires At(i, PutScores(asgts, ss, rest), e)
    ensures Scores(read, i) == Fine(Read(RereadScores(asgts, ss), Peek(rest, e + ScoreComplaints(asgts, ss)).value))
    decreases |ss|
  {
    hide F, Next, At, Peek, IsWord, Check, Ready, Grade, NewlineExpected, PutEntry, RereadEntry,
      FitsEntry, Find, NamesDiffer, RereadAssignments, RereadPolicy, EntryComplaints;
    Keywords();
    if ss == [] {
      CheckNo(i, rest, {"STUDENT", "SECTION"}, "SCORE", e);
    } else {
      var s := ss[0];
      var name, policy := asgts[s.asgt].name, asgts[s.asgt].policy;
      var more := PutScores(asgts, ss[1..], rest);
      var tail := PutEntry(s.entry, policy, EndLine(more));
      assert s in ss;
      Boundaries(name, tail);
      EntryBoundary(s.entry, policy, EndLine(more));
      CheckScore(i, Field(name, tail), e);
      ReadyWord(name, tail, e);
      FindIt(asgts, read, s.asgt);
      GradeBack(s.entry, policy, more, e);
      NextScores(asgts, ss[1..], rest);
      NextIsLine(more, {"SCORE", "STUDENT", "SECTION"});
      var e2 := e + EntryComplaints(s.entry, policy);
      LineEnds(more, e2);
      AtStart(more, {"SCORE", "STUDENT", "SECTION"}, e2);
      ScoresBack(asgts, read, ss[1..], In(more, None, e2), rest, e2);
    }
  }

  lemma ReadyWord(w: string, rest: string, e: nat)
    requires IsWord(w) && Boundary(rest)
    ensures Ready(In(Field(w, rest), None, e)) == Fine(In(rest, Some(w), e))
  {
    PeekField(w, rest, e);
  }

  // ---------- students and sections ----------

  ghost predicate FitsStudent(asgts: seq<Assignment>, s: Student) {
    IsWord(s.id) && IsWord(s.surname) && IsLine(s.name) && FitsScores(asgts, s.rawscores)
  }

  ghost predicate FitsRoster(asgts: seq<Assignment>, ss: seq<Student>): (fits: bool)
    ensures fits ==> RosterIn(asgts, ss)
  {
    forall s :: s in ss ==> FitsStudent(asgts, s)
  }

  ghost function RereadStudents(asgts: seq<Assignment>, ss: seq<Student>): seq<Student>
    requires RosterIn(asgts, ss)
  {
    if ss == [] then []
    else [ss[0].(rawscores := RereadScores(asgts, ss[0].rawscores))] + RereadStudents(asgts, ss[1..])
  }

  ghost function StudentComplaints(asgts: seq<Assignment>, ss: seq<Student>): nat
    requires RosterIn(asgts, ss)
  {
    if ss == [] then 0 else ScoreComplaints(asgts, ss[0].rawscores) + StudentComplaints(asgts, ss[1..])
  }

  lemma NextStudents(asgts: seq<Assignment>, ss: seq<Student>, rest: string)
    requires RosterIn(asgts, ss) && Next(rest, {"SECTION"})
    ensures Next(PutStudents(asgts, ss, rest), {"STUDENT", "SECTION"})
  {
    hide Next, PutScores;
    Keywords();
    if ss == [] {
      NextMore(rest, {"SECTION"}, {"STUDENT", "SECTION"});
    } else {
      var s := ss[0];
      var tail := PutPerson(Person(s.surname, s.name),
        PutScores(asgts, s.rawscores, PutStudents(asgts, ss[1..], rest)));
      Boundaries(s.id, tail);
      NextKey("STUDENT", Field(s.id, tail), {"STUDENT", "SECTION"});
    }
  }

  lemma {:induction false} StudentsBack(asgts: seq<Assignment>, read: seq<Assignment>, ss: seq<Student>, i: In,
                                        rest: string, e: nat)
    requires NamesDiffer(asgts) && read == RereadAssignments(asgts)
    requires RosterIn(asgts, ss) && FitsRoster(asgts, ss) && Next(rest, {"SECTION"})
    requires At(i, PutStudents(asgts, ss, rest), e)
    ensures Students(read, i) == Fine(Read(RereadStudents(asgts, ss),
      Peek(rest, e + StudentComplaints(asgts, ss)).value))
    decreases |ss|
  {
    hide Next, At, Peek, IsWord, IsLine, Check, Word, Name, Scores, PutScores, RereadScores,
      ScoreComplaints, NamesDiffer, RereadAssignments;
    Keywords();
    if ss == [] {
      CheckNo(i, rest, {"SECTION"}, "STUDENT", e);
    } else {
      var s := ss[0];
      assert FitsStudent(asgts, s);
      var more := PutStudents(asgts, ss[1..], rest);
      var scores := PutScores(asgts, s.rawscores, more);
      var tail := "," + Field(s.name, EndLine(scores));
      Boundaries(s.id, Field(s.surname, tail));
      Boundaries(s.surname, Field(s.name, EndLine(scores)));
      Boundaries(s.surname, tail);
      CheckPast(i, "STUDENT", Field(s.id, Field(s.surname, tail)), e);
      WordBack(s.id, Field(s.surname, tail), e);
      WordBack(s.surname, tail, e);
      NextStudents(asgts, ss[1..], rest);
      NextScores(asgts, s.rawscores, more);
      NextIsLine(scores, {"SCORE", "STUDENT", "SECTION"});
      NameBack(s.name, scores, e);
      AtStart(scores, {"SCORE", "STUDENT", "SECTION"}, e);
      ScoresBack(asgts, read, s.rawscores, In(scores, None, e), more, e);
      var e2 := e + ScoreComplaints(asgts, s.rawscores);
      NextAt(more, {"STUDENT", "SECTION"}, e2);
      StudentsBack(asgts, read, ss[1..], Peek(more, e2).value, rest, e2);
    }
  }

  ghost predicate FitsSection(asgts: seq<Assignment>, s: Section) {
    IsLine(s.name) && (s.assistant.Some? ==> FitsPerson(s.assistant.value)) && FitsRoster(asgts, s.roster)
  }

  ghost predicate FitsSections(asgts: seq<Assignment>, ss: seq<Section>): (fits: bool)
    ensures fits ==> SectionsIn(asgts, ss)
  {
    forall s :: s in ss ==> FitsSection(asgts, s)
  }

  ghost function RereadSections(asgts: seq<Assignment>, ss: seq<Section>): seq<Section>
    requires SectionsIn(asgts, ss)
  {
    if ss == [] then []
    else [ss[0].(roster := RereadStudents(asgts, ss[0].roster))] + RereadSections(asgts, ss[1..])
  }

  ghost function SectionComplaints(asgts: seq<Assignment>, ss: seq<Section>): nat
    requires SectionsIn(asgts, ss)
  {
    if ss == [] then 0 else StudentComplaints(asgts, ss[0].roster) + SectionComplaints(asgts, ss[1..])
  }

  lemma NextSections(asgts: seq<Assignment>, ss: seq<Section>)
    requires SectionsIn(asgts, ss)
    ensures Next(PutSections(asgts, ss, ""), {"SECTION"})
  {
    Keywords();
    if ss == [] {
      assert Peek("", 0) == Fine(In("", None, 0));
    } else {
      var s := ss[0];
      var tail := EndLine(PutPersonLine("ASSISTANT", s.assistant,
        PutStudents(asgts, s.roster, PutSections(asgts, ss[1..], ""))));
      Boundaries(s.name, tail);
      NextKey("SECTION", Field(s.name, tail), {"SECTION"});
    }
  }

  lemma NextPerson(key: string, p: Option<Person>, rest: string, keys: set<string>)
    requires IsWord(key) && Next(rest, keys)
    ensures Next(PutPersonLine(key, p, rest), keys + {key})
  {
    if p.None? {
      NextMore(rest, keys, keys + {key});
    } else {
      Boundaries(p.value.surname, "," + Field(p.value.name, EndLine(rest)));
      NextKey(key, PutPerson(p.value, rest), keys + {key});
    }
  }

  lemma {:induction false} SectionsBack(asgts: seq<Assignment>, read: seq<Assignment>, ss: seq<Section>, i: In, e: nat)
    requires NamesDiffer(asgts) && read == RereadAssignments(asgts)
    requires FitsSections(asgts, ss) && At(i, PutSections(asgts, ss, ""), e)
    ensures Sections(read, i) ==
      Fine(Read(RereadSections(asgts, ss), In("", None, e + SectionComplaints(asgts, ss))))
    decreases |ss|
  {
    hide Next, IsWord, IsLine, Name, PersonRead, Students, RereadStudents, PutStudents, NamesDiffer,
      StudentComplaints, RereadAssignments;
    Keywords();
    if ss == [] {
      assert Peek("", e) == Fine(In("", None, e));
    } else {
      var s := ss[0];
      assert FitsSection(asgts, s);
      var more := PutSections(asgts, ss[1..], "");
      var roster := PutStudents(asgts, s.roster, more);
      var people := PutPersonLine("ASSISTANT", s.assistant, roster);
      Boundaries(s.name, EndLine(people));
      PeekField("SECTION", Field(s.name, EndLine(people)), e);
      NextSections(asgts, ss[1..]);
      NextStudents(asgts, s.roster, more);
      NextPerson("ASSISTANT", s.assistant, roster, {"STUDENT", "SECTION"});
      NextIsLine(people, {"STUDENT", "SECTION", "ASSISTANT"});
      NameBack(s.name, people, e);
      AtStart(people, {"STUDENT", "SECTION", "ASSISTANT"}, e);
      PersonBack("ASSISTANT", s.assistant, roster, {"STUDENT", "SECTION"}, In(people, None, e), e);
      var j := PersonRead("ASSISTANT", In(people, None, e)).value.next;
      StudentsBack(asgts, read, s.roster, j, more, e);
      var e2 := e + StudentComplaints(asgts, s.roster);
      NextAt(more, {"SECTION"}, e2);
      SectionsBack(asgts, read, ss[1..], Peek(more, e2).value, e2);
    }
  }

  // ---------- the course ----------

  /** The strings and numbers of c fit the format, and assignment names differ. */
  ghost predicate FitsCourse(c: Course) {
    && IsWord(c.number) && IsLine(c.title)
    && (c.professor.Some? ==> FitsPerson(c.professor.value))
    && FitsAssignments(c.assignments) && NamesDiffer(c.assignments)
    && FitsSections(c.assignments, c.sections)
  }

  ghost function Reread(c: Course): Course
    requires SectionsIn(c.assignments, c.sections)
  {
    c.(assignments := RereadAssignments(c.assignments), sections := RereadSections(c.assignments, c.sections))
  }

  /** Two error reports for every LINEAR and one for every USENORM score out of range. */
  ghost function CourseComplaints(c: Course): nat
    requires SectionsIn(c.assignments, c.sections)
  {
    AllComplaints(c.assignments) + SectionComplaints(c.assignments, c.sections)
  }

  /** Reading the printed course gives Reread(c) and exactly those reports. */
  lemma CourseBack(c: Course)
    requires FitsCourse(c)
    ensures FileRead(PutCourse(c, "")) == Fine((Reread(c), CourseComplaints(c)))
  {
    hide Next, IsWord, IsLine, Field, EndLine, Name, Word, PersonRead, Assignments, Sections, PutAssignments,
      PutSections, PutPersonLine, RereadSections, SectionComplaints;
    Keywords();
    var asgts := c.assignments;
    var sections := PutSections(asgts, c.sections, "");
    var rest := PutAssignments(asgts, sections);
    var people := PutPersonLine("PROFESSOR", c.professor, rest);
    var text := PutCourse(c, "");
    var tail := Field(c.number, Field(c.title, EndLine(people)));
    CourseLine(tail, c.number, Field(c.title, EndLine(people)));
    Boundaries(c.title, EndLine(people));
    WordBack(c.number, Field(c.title, EndLine(people)), 0);
    NextSections(asgts, c.sections);
    NextAssignments(asgts, sections);
    NextPerson("PROFESSOR", c.professor, rest, {"ASSIGNMENT", "SECTION"});
    NextIsLine(people, {"ASSIGNMENT", "SECTION", "PROFESSOR"});
    NameBack(c.title, people, 0);
    AtStart(people, {"ASSIGNMENT", "SECTION", "PROFESSOR"}, 0);
    PersonBack("PROFESSOR", c.professor, rest, {"ASSIGNMENT", "SECTION"}, In(people, None, 0), 0);
    var j := PersonRead("PROFESSOR", In(people, None, 0)).value.next;
    AssignmentsBack(asgts, j, sections, 0);
    var e := AllComplaints(asgts);
    NextAt(sections, {"SECTION"}, e);
    SectionsBack(asgts, RereadAssignments(asgts), c.sections, Peek(sections, e).value, e);
  }

  lemma CourseLine(tail: string, number: string, rest: string)
    requires tail == Field(number, rest)
    ensures BlanksGobbled("COURSE" + tail) == Fine("COURSE" + tail)
    ensures Ready(In("COURSE" + tail, None, 0)) == Fine(In(tail, Some("COURSE"), 0))
  {
    var s := "COURSE" + tail;
    Keywords();
    assert Gobbled(s) == s;
    WordLenOf("COURSE", tail);
    assert s[|"COURSE"|..] == tail && s[..|"COURSE"|] == "COURSE";
  }

  ghost predicate PrintableAssignments(asgts: seq<Assignment>) {
    forall a :: a in asgts ==> !a.policy.Linear? && (a.policy.Raw? ==> a.group.ByClass?)
  }

  ghost predicate PrintableScores(ss: seq<Score>) {
    forall x :: x in ss ==> !x.entry.UseNorm?
  }

  ghost predicate PrintableRoster(ss: seq<Student>) {
    forall s :: s in ss ==> PrintableScores(s.rawscores)
  }

  ghost predicate PrintableSections(ss: seq<Section>) {
    forall s :: s in ss ==> PrintableRoster(s.roster)
  }

  /** No policy, group or entry that printing loses. */
  ghost predicate Printable(c: Course) {
    PrintableAssignments(c.assignments) && PrintableSections(c.sections)
  }

  lemma {:induction false} AssignmentsKept(asgts: seq<Assignment>)
    ensures RereadAssignments(asgts) == asgts <==> PrintableAssignments(asgts)
    ensures PrintableAssignments(asgts) ==> AllComplaints(asgts) == 0
    decreases |asgts|
  {
    if asgts != [] {
      var a, rest, read := asgts[0], asgts[1..], RereadAssignments(asgts);
      AssignmentsKept(rest);
      assert asgts == [a] + rest;
      assert read[0] == RereadAssignment(a) && read[1..] == RereadAssignments(rest);
      assert RereadAssignment(a) == a <==> !a.policy.Linear? && (a.policy.Raw? ==> a.group.ByClass?);
    }
  }

  lemma EntryKept(e: Entry, policy: Policy)
    ensures RereadEntry(e, policy) == e <==> !e.UseNorm?
  {
    if e.UseNorm? && !policy.Raw? {
      assert |RereadEntry(e, policy).code| == |e.code| + 11;
    }
  }

  lemma {:induction false} ScoresKept(asgts: seq<Assignment>, ss: seq<Score>)
    requires ScoresIn(asgts, ss)
    ensures RereadScores(asgts, ss) == ss <==> PrintableScores(ss)
    ensures PrintableScores(ss) ==> ScoreComplaints(asgts, ss) == 0
    decreases |ss|
  {
    hide RereadEntry;
    if ss != [] {
      var s, rest, read := ss[0], ss[1..], RereadScores(asgts, ss);
      ScoresKept(asgts, rest);
      EntryKept(s.entry, asgts[s.asgt].policy);
      assert ss == [s] + rest;
      assert read[0].entry == RereadEntry(s.entry, asgts[s.asgt].policy) && read[1..] == RereadScores(asgts, rest);
    }
  }

  lemma {:induction false} StudentsKept(asgts: seq<Assignment>, ss: seq<Student>)
    requires RosterIn(asgts, ss)
    ensures RereadStudents(asgts, ss) == ss <==> PrintableRoster(ss)
    ensures PrintableRoster(ss) ==> StudentComplaints(asgts, ss) == 0
    decreases |ss|
  {
    hide RereadScores, PrintableScores, ScoreComplaints;
    if ss != [] {
      var s, rest, read := ss[0], ss[1..], RereadStudents(asgts, ss);
      StudentsKept(asgts, rest);
      ScoresKept(asgts, s.rawscores);
      assert ss == [s] + rest;
      assert read[0].rawscores == RereadScores(asgts, s.rawscores) && read[1..] == RereadStudents(asgts, rest);
    }
  }

  lemma {:induction false} SectionsKept(asgts: seq<Assignment>, ss: seq<Section>)
    requires SectionsIn(asgts, ss)
    ensures RereadSections(asgts, ss) == ss <==> PrintableSections(ss)
    ensures PrintableSections(ss) ==> SectionComplaints(asgts, ss) == 0
    decreases |ss|
  {
    hide RereadStudents, PrintableRoster, StudentComplaints;
    if ss != [] {
      var s, rest, read := ss[0], ss[1..], RereadSections(asgts, ss);
      SectionsKept(asgts, rest);
      StudentsKept(asgts, s.roster);
      assert ss == [s] + rest;
      assert read[0].roster == RereadStudents(asgts, s.roster) && read[1..] == RereadSections(asgts, rest);
    }
  }

  /** A course whose strings fit comes back unchanged and without complaint exactly when it uses no
      LINEAR policy, no group without a policy and no USENORM score. */
  lemma RoundTrip(c: Course)
    requires FitsCourse(c)
    ensures FileRead(PutCourse(c, "")) == Fine((c, 0)) <==> Printable(c)
  {
    hide FileRead, PutCourse, RereadAssignments, RereadSections, AllComplaints, SectionComplaints,
      PrintableAssignments, PrintableSections;
    CourseBack(c);
    AssignmentsKept(c.assignments);
    SectionsKept(c.assignments, c.sections);
  }
}
