/** What the reader in hw2/src/read.c does with its input, function by function. */
module CourseReader {
  import opened CourseText

  /** fatal(), or more characters than the token buffer holds. */
  datatype Outcome<T> = Fine(value: T) | Stop {
    predicate IsFailure() {
      Stop?
    }

    function PropagateFailure<U>(): Outcome<U>
      requires Stop?
    {
      Stop
    }

    function Extract(): T
      requires Fine?
    {
      value
    }
  }

  /** The input not read yet, the token buffer, and the number of errors reported. */
  datatype In = In(left: string, token: Option<string>, errors: nat) {
    function Size(): nat {
      |left| + if token.Some? then 1 else 0
    }

    function Failed(): In {
      this.(errors := errors + 1)
    }

    function Flushed(): In {
      this.(token := None)
    }
  }

  datatype Read<T> = Read(value: T, next: In)

  const BUFFER := 64

  /** Lines 473-479. */
  predicate Ws(c: char) {
    c == ',' || c == ':' || c == ' ' || c == '\t' || c == '\U{C}'       // form feed
  }

  /** Lines 481-487. */
  function Gobbled(s: string): (r: string)
    ensures |r| <= |s| && (r != [] ==> !Ws(r[0]))
  {
    if s != [] && Ws(s[0]) then Gobbled(s[1..]) else s
  }

  function WordLen(s: string): (n: nat)
    ensures n <= |s|
  {
    if s == [] || Ws(s[0]) || s[0] == '\n' then 0 else 1 + WordLen(s[1..])
  }

  function LineLen(s: string): (n: nat)
    ensures n <= |s| && (n < |s| ==> s[n] == '\n')
  {
    if s == [] || s[0] == '\n' then 0 else 1 + LineLen(s[1..])
  }

  /** Lines 535-549. */
  function Advanced(i: In): (r: Outcome<In>)
    ensures r.Fine? && i.token.None? ==> r.value.Size() <= i.Size()
    ensures r.Fine? && r.value.token.Some? ==> |r.value.left| < |i.left|
  {
    var s := Gobbled(i.left);
    var n := WordLen(s);
    var errors := i.errors + if i.token.Some? then 1 else 0;
    if n >= BUFFER then Stop
    else Fine(In(s[n..], if n == 0 then None else Some(s[..n]), errors))
  }

  /** Lines 556-578. */
  function AdvancedEol(i: In): (r: Outcome<In>)
    ensures r.Fine? ==>
      r.value.token.Some? && |r.value.left| <= |i.left| && r.value.left != [] && r.value.left[0] == '\n'
  {
    var s := Gobbled(i.left);
    var n := LineLen(s);
    if n == |s| || n >= BUFFER then Stop
    else Fine(In(s[n..], Some(s[..n]), i.errors + if i.token.Some? then 1 else 0))
  }

  /** if(!istoken()) advancetoken(); */
  function Ready(i: In): (r: Outcome<In>)
    ensures r.Fine? ==> r.value.Size() <= i.Size() && r.value.errors == i.errors
    ensures r.Fine? && r.value.token.Some? ==> |r.value.left| < i.Size()
  {
    if i.token.Some? then Fine(i) else Advanced(i)
  }

  /** Lines 604-614. */
  function Check(i: In, key: string): (r: Outcome<Read<bool>>)
    ensures r.Fine? ==> r.value.next.Size() <= i.Size() && (r.value.value ==> r.value.next.Size() < i.Size())
  {
    var j :- Ready(i);
    Fine(if j.token == Some(key) then Read(true, j.Flushed()) else Read(false, j))
  }

  /** What is left after the end of the line; Stop without one. */
  function LineSkipped(s: string): (r: Outcome<string>)
    ensures r.Fine? ==> |r.value| < |s|
  {
    var n := LineLen(s);
    if n == |s| then Stop else Fine(s[n + 1..])
  }

  /** Lines 489-513. */
  function BlanksGobbled(s: string): (r: Outcome<string>)
    ensures r.Fine? ==> |r.value| <= |s|
    decreases |s|
  {
    if s == [] then Fine(s)
    else if s[0] == '#' then
      var t :- LineSkipped(s[1..]);
      BlanksGobbled(t)
    else if s[0] == '\n' then BlanksGobbled(Gobbled(s[1..]))
    else Fine(s)
  }

  /** Lines 616-631. A buffered token never begins with a newline. */
  function NewlineExpected(i: In): (r: Outcome<In>)
    ensures r.Fine? ==> r.value.token.None? && |r.value.left| < |i.left|
  {
    var s := if i.token.Some? then i.left else Gobbled(i.left);
    if i.token.Some? || (s != [] && s[0] != '\n') then
      var t :- LineSkipped(if i.token.Some? then s else s[1..]);
      Fine(In(t, None, i.errors + 1))
    else if s == [] then Stop
    else
      var t :- BlanksGobbled(s[1..]);
      Fine(In(t, None, i.errors))
  }

  /** readsurname, readid and readatype (lines 390-401, 419-443). */
  function Word(i: In): (r: Outcome<Read<string>>)
    ensures r.Fine? ==> r.value.next.Size() <= i.Size()
  {
    var j :- Ready(i);
    Fine(if j.token.Some? then Read(j.token.value, j.Flushed()) else Read("", j.Failed()))
  }

  /** Lines 403-417. */
  function Name(i: In): (r: Outcome<Read<string>>)
    ensures r.Fine? ==> r.value.next.Size() < i.Size()
  {
    var j :- AdvancedEol(i);
    var k :- NewlineExpected(j.Flushed());
    Fine(Read(j.token.value, k))
  }

  /** A number, or an error and the default; on an error the token stays. */
  function Number(i: In): (r: Outcome<Read<Option<real>>>)
    ensures r.Fine? ==> r.value.next.Size() <= i.Size()
  {
    var j :- Ready(i);
    Fine(if j.token.Some? && Scan(j.token.value).Some? then Read(Scan(j.token.value), j.Flushed())
      else Read(None, j.Failed()))
  }

  function OrElse(x: Option<real>, d: real): real {
    if x.Some? then x.value else d
  }

  function PersonRead(key: string, i: In): (r: Outcome<Read<Option<Person>>>)
    ensures r.Fine? ==> r.value.next.Size() <= i.Size()
  {
    var found :- Check(i, key);
    if !found.value then Fine(Read(None, found.next))
    else
      var surname :- Word(found.next);
      var name :- Name(surname.next);
      Fine(Read(Some(Person(surname.value, name.value)), name.next))
  }

  /** Lines 339-382: normalization keywords until something else comes; whether there was any. */
  function NormWords(a: Assignment, i: In, found: bool): (r: Outcome<Read<(Assignment, bool)>>)
    ensures r.Fine? ==> r.value.next.Size() <= i.Size()
    decreases i.Size()
  {
    var raw :- Check(i, "RAW");
    if raw.value then NormWords(a.(policy := Raw), raw.next, true) else
    var std :- Check(raw.next, "STDLINEAR");
    if std.value then NormWords(a.(policy := Linear(0.0, 1.0)), std.next, true) else
    var gen :- Check(std.next, "GENLINEAR");
    if gen.value then
      var mean :- Number(gen.next);
      var dev :- NumberAfter(mean);
      NormWords(a.(policy := Linear(OrElse(mean.value, 0.0), OrElse(dev.value, 1.0))), dev.next, true)
    else
    var quantile :- Check(gen.next, "QUANTILE");
    if quantile.value then NormWords(a.(policy := Quantile), quantile.next, true) else
    var scale :- Check(quantile.next, "SCALE");
    if scale.value then
      var x :- Number(scale.next);
      NormWords(a.(policy := Scale(OrElse(x.value, 0.0))), x.next, true)
    else
    var byclass :- Check(scale.next, "BYCLASS");
    if byclass.value then NormWords(a.(group := ByClass), byclass.next, true) else
    var bysection :- Check(byclass.next, "BYSECTION");
    if bysection.value then NormWords(a.(group := BySection), bysection.next, true)
    else Fine(Read((a, found), bysection.next))
  }

  /** Line 356: advancetoken complains of a token that line 349 left behind. */
  function NumberAfter(first: Read<Option<real>>): (r: Outcome<Read<Option<real>>>)
    ensures r.Fine? ==> r.value.next.Size() <= first.next.Size()
  {
    var j :- Advanced(first.next);
    Number(j)
  }

  /** Lines 333-388. */
  function Norm(a: Assignment, i: In): (r: Outcome<Read<Assignment>>)
    ensures r.Fine? ==> r.value.next.Size() <= i.Size()
  {
    var words :- NormWords(a, i, false);
    Fine(if words.value.1 then Read(words.value.0, words.next)
         else Read(words.value.0.(policy := Raw, group := ByClass), words.next.Failed()))
  }

  /** Lines 118-129. */
  function Details(a: Assignment, i: In): (r: Outcome<Read<Assignment>>)
    ensures r.Fine? ==> r.value.next.Size() <= i.Size()
    decreases i.Size()
  {
    var weight :- Check(i, "WEIGHT");
    if weight.value then
      var x :- Number(weight.next);
      var j :- NewlineExpected(x.next);
      Details(a.(weight := x.value), j)
    else
    var normalize :- Check(weight.next, "NORMALIZE");
    if normalize.value then
      var b :- Norm(a, normalize.next);
      var j :- NewlineExpected(b.next);
      Details(b.value, j)
    else
    var maximum :- Check(normalize.next, "MAXIMUM");
    if maximum.value then
      var x :- Number(maximum.next);
      var j :- NewlineExpected(x.next);
      Details(a.(max := OrElse(x.value, a.max)), j)
    else Fine(Read(a, maximum.next))
  }

  /** Lines 105-132. */
  function Assignments(i: In): (r: Outcome<Read<seq<Assignment>>>)
    ensures r.Fine? ==> r.value.next.Size() <= i.Size()
    decreases i.Size()
  {
    var found :- Check(i, "ASSIGNMENT");
    if !found.value then Fine(Read([], found.next)) else
    var name :- Word(found.next);
    var atype :- Word(name.next);
    var j :- NewlineExpected(atype.next);
    var a :- Details(Assignment(name.value, atype.value, None, Raw, ByClass, 0.0), j);
    var more :- Assignments(a.next);
    Fine(Read([a.value] + more.value, more.next))
  }

  /** The first assignment so named (lines 204-209), or |asgts|. */
  function Find(asgts: seq<Assignment>, name: string): (n: nat)
    ensures n <= |asgts| && (n < |asgts| ==> asgts[n].name == name) && forall k :: 0 <= k < n ==> asgts[k].name != name
  {
    if asgts == [] then 0 else
      var n := Find(asgts[..|asgts| - 1], name);
      if n < |asgts| - 1 || asgts[|asgts| - 1].name == name then n else |asgts|
  }

  /** Lines 299-301. */
  function Code(i: In): (r: Outcome<Read<string>>)
    ensures r.Fine? ==> r.value.next.Size() <= i.Size()
  {
    var j :- AdvancedEol(i);
    Fine(Read(j.token.value, j.Flushed()))
  }

  /** The scores that lines 275-288 report; a LINEAR one far off is only warned about. */
  predicate OutOfRange(p: Policy, x: real) {
    (p.Quantile? && (x < 0.0 || x > 100.0)) || (p.Scale? && (x < 0.0 || x > p.scale))
  }

  /** Lines 224-303. */
  function Grade(p: Policy, i: In): (r: Outcome<Read<Entry>>)
    ensures r.Fine? ==> r.value.next.Size() <= i.Size()
  {
    var useraw :- Check(i, "USERAW");
    if useraw.value then
      var x :- Number(useraw.next);
      var code :- Code(x.next);
      Fine(Read(UseRaw(OrElse(x.value, 0.0), code.value), code.next))
    else
    var usenorm :- Check(useraw.next, "USENORM");
    if usenorm.value then
      var x :- Number(usenorm.next);
      var j := if x.value.Some? && OutOfRange(p, x.value.value) then x.next.Failed() else x.next;
      var code :- Code(j);
      var f := OrElse(x.value, 0.0);
      Fine(Read(UseNorm(f, f, f, code.value), code.next))
    else
    var like :- Check(usenorm.next, "USELIKEAVG");
    if like.value then
      var code :- Code(like.next);
      Fine(Read(UseLikeAvg(code.value), code.next))
    else
    var byclass :- Check(like.next, "USECLASSAVG");
    if byclass.value then
      var code :- Code(byclass.next);
      Fine(Read(UseClassAvg(code.value), code.next))
    else
    var x :- Number(byclass.next);
    Fine(Read(Valid(OrElse(x.value, 0.0)), x.next))
  }

  /** Lines 189-222. */
  function Scores(asgts: seq<Assignment>, i: In): (r: Outcome<Read<seq<Score>>>)
    ensures r.Fine? ==> r.value.next.Size() <= i.Size()
    decreases i.Size()
  {
    var found :- Check(i, "SCORE");
    if !found.value then Fine(Read([], found.next)) else
    var j :- Ready(found.next);
    if j.token.None? then Stop else
    var n := Find(asgts, j.token.value);
    if n == |asgts| then Stop else
    var e :- Grade(asgts[n].policy, j.Flushed());
    var k :- NewlineExpected(e.next);
    var more :- Scores(asgts, k);
    Fine(Read([Score(n, e.value)] + more.value, more.next))
  }

  /** Lines 172-187. */
  function Students(asgts: seq<Assignment>, i: In): (r: Outcome<Read<seq<Student>>>)
    ensures r.Fine? ==> r.value.next.Size() <= i.Size()
    decreases i.Size()
  {
    var found :- Check(i, "STUDENT");
    if !found.value then Fine(Read([], found.next)) else
    var id :- Word(found.next);
    var surname :- Word(id.next);
    var name :- Name(surname.next);
    var scores :- Scores(asgts, name.next);
    var more :- Students(asgts, scores.next);
    Fine(Read([Student(id.value, surname.value, name.value, scores.value)] + more.value, more.next))
  }

  /** Lines 134-170 for a single file: FILE stops the model. */
  function Sections(asgts: seq<Assignment>, i: In): (r: Outcome<Read<seq<Section>>>)
    ensures r.Fine? ==> r.value.next.Size() <= i.Size()
    decreases i.Size()
  {
    var j :- Ready(i);
    if j.token.None? then Fine(Read([], j))
    else if j.token == Some("FILE") then Stop
    else if j.token != Some("SECTION") then Fine(Read([], j))
    else
    var name :- Name(j.Flushed());
    var assistant :- PersonRead("ASSISTANT", name.next);
    var roster :- Students(asgts, assistant.next);
    var more :- Sections(asgts, roster.next);
    Fine(Read([Section(name.value, assistant.value, roster.value)] + more.value, more.next))
  }

  /** Lines 62-81. */
  function CourseRead(i: In): Outcome<Read<Course>> {
    var key :- Ready(i);
    var j := if key.token == Some("COURSE") then key.Flushed() else key.Failed();
    var number :- Word(j);
    var title :- Name(number.next);
    var professor :- PersonRead("PROFESSOR", title.next);
    var asgts :- Assignments(professor.next);
    var sections :- Sections(asgts.value, asgts.next);
    Fine(Read(Course(number.value, title.value, professor.value, asgts.value, sections.value), sections.next))
  }

  /** Lines 37-60 on the text of the file; the number of errors with the course. */
  function FileRead(text: string): Outcome<(Course, nat)> {
    var s :- BlanksGobbled(text);
    var c :- CourseRead(In(s, None, 0));
    var i := c.next;
    var t :- if i.token.None? then BlanksGobbled(i.left) else Fine(i.left);
    Fine((c.value, i.errors + if i.token.None? && t == [] then 0 else 1))
  }
}
