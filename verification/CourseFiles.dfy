/** The reader with its token buffer (hw2/src/read.c) and the writer (hw2/src/write.c), proved against
    CourseReader and CourseText. */
module CourseFiles {
  import opened Sequences
  import opened CourseText
  import opened CourseReader

  /** The result r and the state now are what the specification says. */
  ghost predicate Done<T>(r: Outcome<T>, spec: Outcome<Read<T>>, now: In) {
    if spec.Stop? then r.Stop? else r == Fine(spec.value.value) && now == spec.value.next
  }

  ghost predicate Moved(r: Outcome<()>, spec: Outcome<In>, now: In) {
    if spec.Stop? then r.Stop? else r.Fine? && now == spec.value
  }

  lemma {:induction false} WordLenIs(s: string, n: nat)
    requires n <= |s| && forall k :: 0 <= k < n ==> !Ws(s[k]) && s[k] != '\n'
    ensures WordLen(s) >= n
    ensures n == |s| || Ws(s[n]) || s[n] == '\n' ==> WordLen(s) == n
    decreases n
  {
    if n > 0 {
      WordLenIs(s[1..], n - 1);
    }
  }

  lemma {:induction false} LineLenIs(s: string, n: nat)
    requires n <= |s| && forall k :: 0 <= k < n ==> s[k] != '\n'
    ensures LineLen(s) >= n
    ensures n == |s| || s[n] == '\n' ==> LineLen(s) == n
    decreases n
  {
    if n > 0 {
      LineLenIs(s[1..], n - 1);
    }
  }

  /** One turn of the loop at lines 493-512. */
  lemma BlankStep(s: string)
    ensures BlanksGobbled(s) ==
      if s == [] || (s[0] != '#' && s[0] != '\n') then Fine(s)
      else if s[0] == '\n' then BlanksGobbled(Gobbled(s[1..]))
      else if LineSkipped(s[1..]).Stop? then Stop
      else BlanksGobbled(LineSkipped(s[1..]).value)
  {
  }

  class Reader {
    const input: string
    var pos: nat                       // how much of the input has been read
    const tokenbuf: array<char>
    var tokenptr: nat
    var tokenend: nat
    var errors: nat

    ghost predicate Valid()
      reads this
    {
      pos <= |input| && tokenbuf.Length == BUFFER && tokenptr <= tokenend <= BUFFER
    }

    /** The buffered characters without the final NUL. */
    ghost function Token(): Option<string>
      requires Valid()
      reads this, tokenbuf
    {
      if tokenptr == tokenend then None else Some(tokenbuf[tokenptr..tokenend - 1])
    }

    ghost function Now(): In
      requires Valid()
      reads this, tokenbuf
    {
      In(input[pos..], Token(), errors)
    }

    constructor (text: string)
      ensures Valid() && Now() == In(text, None, 0) && fresh(tokenbuf)
    {
      input := text;
      pos, tokenptr, tokenend, errors := 0, 0, 0, 0;
      tokenbuf := new char[BUFFER];
      new;
      assert input[0..] == text;
    }

    /** Lines 449-453. */
    predicate IsToken()
      reads this
    {
      tokenptr != tokenend
    }

    /** Lines 468-471. */
    method FlushToken()
      requires Valid()
      modifies `tokenptr, `tokenend
      ensures Valid() && Now() == old(Now()).Flushed() && tokenptr == 0
    {
      tokenptr, tokenend := 0, 0;
    }

    method Error()
      requires Valid()
      modifies `errors
      ensures Valid() && Now() == old(Now()).Failed()
    {
      errors := errors + 1;
    }

    /** Lines 481-487. */
    method GobbleWhitespace()
      requires Valid()
      modifies `pos
      ensures Valid() && Now() == if old(IsToken()) then old(Now()) else old(Now()).(left := Gobbled(old(Now()).left))
    {
      if IsToken() {
        return;
      }
      while pos < |input| && Ws(input[pos])
        invariant Valid() && Gobbled(input[pos..]) == old(Gobbled(input[pos..]))
        decreases |input| - pos
      {
        assert input[pos..][1..] == input[pos + 1..];
        pos := pos + 1;
      }
    }

    /** Lines 541-547. Without room for one more character and the NUL it is full. */
    method FillWord() returns (full: bool)
      requires Valid() && !IsToken() && tokenptr == 0
      modifies `pos, `tokenend, tokenbuf
      ensures Valid() && full == (WordLen(old(input[pos..])) >= BUFFER)
      ensures !full ==> pos == old(pos) + tokenend && tokenend == WordLen(old(input[pos..]))
      ensures !full ==> tokenbuf[..tokenend] == old(input[pos..])[..tokenend]
    {
      ghost var s := input[pos..];
      while pos < |input| && !Ws(input[pos]) && input[pos] != '\n'
        invariant pos == old(pos) + tokenend <= |input| && tokenend < BUFFER
        invariant tokenbuf[..tokenend] == s[..tokenend] && forall k :: 0 <= k < tokenend ==> !Ws(s[k]) && s[k] != '\n'
        decreases |input| - pos
      {
        assert s[tokenend] == input[pos];
        if tokenend == BUFFER - 1 {
          WordLenIs(s, tokenend + 1);
          return true;
        }
        tokenbuf[tokenend] := input[pos];
        tokenend := tokenend + 1;
        pos := pos + 1;
      }
      assert pos < |input| ==> s[tokenend] == input[pos];
      WordLenIs(s, tokenend);
      return false;
    }

    /** Lines 565-572. Without room for one more character and the NUL it is full. */
    method FillLine() returns (full: bool)
      requires Valid() && !IsToken() && tokenptr == 0
      modifies `pos, `tokenend, tokenbuf
      ensures Valid() && full == (LineLen(old(input[pos..])) >= BUFFER)
      ensures !full ==> pos == old(pos) + tokenend && tokenend == LineLen(old(input[pos..]))
      ensures !full ==> tokenbuf[..tokenend] == old(input[pos..])[..tokenend]
    {
      ghost var s := input[pos..];
      while pos < |input| && input[pos] != '\n'
        invariant pos == old(pos) + tokenend <= |input| && tokenend < BUFFER
        invariant tokenbuf[..tokenend] == s[..tokenend] && forall k :: 0 <= k < tokenend ==> s[k] != '\n'
        decreases |input| - pos
      {
        assert s[tokenend] == input[pos];
        if tokenend == BUFFER - 1 {
          LineLenIs(s, tokenend + 1);
          return true;
        }
        tokenbuf[tokenend] := input[pos];
        tokenend := tokenend + 1;
        pos := pos + 1;
      }
      assert pos < |input| ==> s[tokenend] == input[pos];
      LineLenIs(s, tokenend);
      return false;
    }

    /** The buffer is closed with a NUL. */
    method EndToken(ghost t: string)
      requires Valid() && tokenptr == 0 && tokenend == |t| < BUFFER && tokenbuf[..tokenend] == t
      modifies `tokenend, tokenbuf
      ensures Valid() && Now() == old(Now()).(token := Some(t))
    {
      tokenbuf[tokenend] := '\0';
      tokenend := tokenend + 1;
    }

    /** Lines 535-549. */
    method AdvanceToken() returns (r: Outcome<()>)
      requires Valid()
      modifies this, tokenbuf
      ensures Valid() && Moved(r, Advanced(old(Now())), Now())
    {
      hide WordLen, Gobbled;
      if IsToken() {
        Error();
      }
      FlushToken();
      GobbleWhitespace();
      ghost var s := input[pos..];
      var full := FillWord();
      if full {
        return Stop;
      }
      assert input[pos..] == s[tokenend..];
      if tokenend != tokenptr {
        EndToken(s[..tokenend]);
      }
      return Fine(());
    }

    /** Lines 556-578. */
    method AdvanceEol() returns (r: Outcome<()>)
      requires Valid()
      modifies this, tokenbuf
      ensures Valid() && Moved(r, AdvancedEol(old(Now())), Now())
    {
      hide LineLen, Gobbled;
      if IsToken() {
        Error();
      }
      FlushToken();
      GobbleWhitespace();
      ghost var s := input[pos..];
      var full := FillLine();
      if full {
        return Stop;
      }
      assert tokenend == |s| <==> pos == |input|;
      if pos == |input| {
        return Stop;
      }
      assert input[pos..] == s[tokenend..];
      EndToken(s[..tokenend]);
      return Fine(());
    }

    /** if(!istoken()) advancetoken(); */
    method NeedToken() returns (r: Outcome<()>)
      requires Valid()
      modifies this, tokenbuf
      ensures Valid() && Moved(r, Ready(old(Now())), Now())
    {
      if IsToken() {
        return Fine(());
      }
      r := AdvanceToken();
    }

    /** The buffered token. */
    method Buffered() returns (t: string)
      requires Valid() && IsToken()
      ensures Some(t) == Token()
    {
      t := tokenbuf[tokenptr..tokenend - 1];
    }

    /** Lines 604-614. */
    method CheckToken(key: string) returns (r: Outcome<bool>)
      requires Valid()
      modifies this, tokenbuf
      ensures Valid() && Done(r, Check(old(Now()), key), Now())
    {
      hide Ready;
      var _ :- NeedToken();
      if IsToken() {
        var t := Buffered();
        if t == key {
          FlushToken();
          return Fine(true);
        }
      }
      return Fine(false);
    }

    /** To the end of the line: getc until a newline, EOF being fatal. */
    method SkipLine() returns (r: Outcome<()>)
      requires Valid() && !IsToken()
      modifies `pos
      ensures Valid()
      ensures var spec := LineSkipped(old(Now()).left);
        if spec.Stop? then r.Stop? else r.Fine? && Now() == old(Now()).(left := spec.value)
    {
      ghost var s := input[pos..];
      while pos < |input| && input[pos] != '\n'
        invariant old(pos) <= pos <= |input| && forall k :: 0 <= k < pos - old(pos) ==> s[k] != '\n'
        decreases |input| - pos
      {
        assert s[pos - old(pos)] == input[pos];
        pos := pos + 1;
      }
      ghost var n := pos - old(pos);
      assert n < |s| ==> s[n] == input[pos];
      LineLenIs(s, n);
      if pos == |input| {
        return Stop;
      }
      pos := pos + 1;
      assert input[pos..] == s[n + 1..];
      return Fine(());
    }

    /** Lines 489-513. */
    method GobbleBlankLines() returns (r: Outcome<()>)
      requires Valid()
      modifies `pos
      ensures Valid()
      ensures old(IsToken()) ==> r.Fine? && Now() == old(Now())
      ensures !old(IsToken()) ==>
        var spec := BlanksGobbled(old(Now()).left);
        if spec.Stop? then r.Stop? else r.Fine? && Now() == old(Now()).(left := spec.value)
    {
      hide BlanksGobbled, Gobbled, LineSkipped;
      if IsToken() {
        return Fine(());
      }
      while pos < |input| && (input[pos] == '#' || input[pos] == '\n')
        invariant Valid() && BlanksGobbled(input[pos..]) == old(BlanksGobbled(input[pos..])) &&
          Now() == old(Now()).(left := input[pos..])
        decreases |input| - pos
      {
        ghost var s := input[pos..];
        assert s[0] == input[pos] && s[1..] == input[pos + 1..];
        BlankStep(s);
        if input[pos] == '#' {
          pos := pos + 1;
          var _ :- SkipLine();
        } else {
          pos := pos + 1;
          GobbleWhitespace();
        }
      }
      assert pos < |input| ==> input[pos..][0] == input[pos];
      BlankStep(input[pos..]);
      return Fine(());
    }

    /** Lines 616-631. With a token in the buffer the character nextchar takes from it is no newline. */
    method ExpectNewline() returns (r: Outcome<()>)
      requires Valid()
      modifies this
      ensures Valid() && Moved(r, NewlineExpected(old(Now())), Now())
    {
      hide Gobbled, BlanksGobbled, LineSkipped;
      if IsToken() {
        Error();
        FlushToken();
        r := SkipLine();
        return;
      }
      GobbleWhitespace();
      if pos == |input| {
        return Stop;
      }
      ghost var s := input[pos..];
      var c := input[pos];
      pos := pos + 1;
      assert s[0] == c && s[1..] == input[pos..];
      if c == '\n' {
        r := GobbleBlankLines();
      } else {
        Error();
        r := SkipLine();
      }
    }

    /** readid, readsurname and readatype (lines 390-401, 419-443). */
    method ReadWord() returns (r: Outcome<string>)
      requires Valid()
      modifies this, tokenbuf
      ensures Valid() && Done(r, Word(old(Now())), Now())
    {
      hide Ready;
      var _ :- NeedToken();
      if IsToken() {
        var t := Buffered();
        FlushToken();
        return Fine(t);
      }
      Error();
      FlushToken();
      return Fine("");
    }

    /** Lines 403-417. */
    method ReadName() returns (r: Outcome<string>)
      requires Valid()
      modifies this, tokenbuf
      ensures Valid() && Done(r, Name(old(Now())), Now())
    {
      hide AdvancedEol, NewlineExpected;
      var _ :- AdvanceEol();
      var t := Buffered();
      FlushToken();
      var _ :- ExpectNewline();
      return Fine(t);
    }

    /** sscanf(tokenptr, "%f", &f), as in lines 237-244. */
    method ReadNumber() returns (r: Outcome<Option<real>>)
      requires Valid()
      modifies this, tokenbuf
      ensures Valid() && Done(r, Number(old(Now())), Now())
    {
      hide Ready, Scan;
      var _ :- NeedToken();
      if IsToken() {
        var t := Buffered();
        var f := Scan(t);
        if f.Some? {
          FlushToken();
          return Fine(f);
        }
      }
      Error();
      return Fine(None);
    }

    /** readprofessor and readassistant (lines 83-103). */
    method ReadPerson(key: string) returns (r: Outcome<Option<Person>>)
      requires Valid()
      modifies this, tokenbuf
      ensures Valid() && Done(r, PersonRead(key, old(Now())), Now())
    {
      hide Check, Word, Name;
      var found :- CheckToken(key);
      if !found {
        return Fine(None);
      }
      var surname :- ReadWord();
      var name :- ReadName();
      return Fine(Some(Person(surname, name)));
    }

    /** Lines 333-388. */
    method ReadNorm(a0: Assignment) returns (r: Outcome<Assignment>)
      requires Valid()
      modifies this, tokenbuf
      ensures Valid() && Done(r, Norm(a0, old(Now())), Now())
    {
      hide Check, Number, Advanced;
      var a, found := a0, false;
      while true
        invariant Valid() && NormWords(a, Now(), found) == old(NormWords(a0, Now(), false))
        decreases Now().Size()
      {
        var raw :- CheckToken("RAW");
        if raw {
          a := a.(policy := Raw);
        } else {
          var std :- CheckToken("STDLINEAR");
          if std {
            a := a.(policy := Linear(0.0, 1.0));
          } else {
            var gen :- CheckToken("GENLINEAR");
            if gen {
              var mean :- ReadNumber();
              var _ :- AdvanceToken();
              var dev :- ReadNumber();
              a := a.(policy := Linear(OrElse(mean, 0.0), OrElse(dev, 1.0)));
            } else {
              var quantile :- CheckToken("QUANTILE");
              if quantile {
                a := a.(policy := Quantile);
              } else {
                var scale :- CheckToken("SCALE");
                if scale {
                  var x :- ReadNumber();
                  a := a.(policy := Scale(OrElse(x, 0.0)));
                } else {
                  var byclass :- CheckToken("BYCLASS");
                  if byclass {
                    a := a.(group := ByClass);
                  } else {
                    var bysection :- CheckToken("BYSECTION");
                    if bysection {
                      a := a.(group := BySection);
                    } else {
                      break;
                    }
                  }
                }
              }
            }
          }
        }
        found := true;
      }
      if !found {
        a := a.(policy := Raw, group := ByClass);
        Error();
      }
      return Fine(a);
    }

    /** Lines 118-129. */
    method ReadDetails(a0: Assignment) returns (r: Outcome<Assignment>)
      requires Valid()
      modifies this, tokenbuf
      ensures Valid() && Done(r, Details(a0, old(Now())), Now())
    {
      hide Check, Number, Norm, NewlineExpected;
      var a := a0;
      while true
        invariant Valid() && Details(a, Now()) == old(Details(a0, Now()))
        decreases Now().Size()
      {
        var weight :- CheckToken("WEIGHT");
        if weight {
          var x :- ReadNumber();
          a := a.(weight := x);
          var _ :- ExpectNewline();
        } else {
          var normalize :- CheckToken("NORMALIZE");
          if normalize {
            a :- ReadNorm(a);
            var _ :- ExpectNewline();
          } else {
            var maximum :- CheckToken("MAXIMUM");
            if maximum {
              var x :- ReadNumber();
              a := a.(max := OrElse(x, a.max));
              var _ :- ExpectNewline();
            } else {
              break;
            }
          }
        }
      }
      return Fine(a);
    }

    /** Lines 105-132. */
    method ReadAssignments() returns (r: Outcome<seq<Assignment>>)
      requires Valid()
      modifies this, tokenbuf
      ensures Valid() && Done(r, Assignments(old(Now())), Now())
      decreases Now().Size()
    {
      hide Check, Word, NewlineExpected, Details;
      var found :- CheckToken("ASSIGNMENT");
      if !found {
        return Fine([]);
      }
      var name :- ReadWord();
      var atype :- ReadWord();
      var _ :- ExpectNewline();
      var a :- ReadDetails(Assignment(name, atype, None, Raw, ByClass, 0.0));
      var more :- ReadAssignments();
      return Fine([a] + more);
    }

    /** Lines 299-301. */
    method ReadCode() returns (r: Outcome<string>)
      requires Valid()
      modifies this, tokenbuf
      ensures Valid() && Done(r, Code(old(Now())), Now())
    {
      hide AdvancedEol;
      var _ :- AdvanceEol();
      var t := Buffered();
      FlushToken();
      return Fine(t);
    }

    /** Lines 224-303. */
    method ReadGrade(p: Policy) returns (r: Outcome<Entry>)
      requires Valid()
      modifies this, tokenbuf
      ensures Valid() && Done(r, Grade(p, old(Now())), Now())
    {
      hide Check, Number, Code;
      var useraw :- CheckToken("USERAW");
      if useraw {
        var x :- ReadNumber();
        var code :- ReadCode();
        return Fine(UseRaw(OrElse(x, 0.0), code));
      }
      var usenorm :- CheckToken("USENORM");
      if usenorm {
        var x :- ReadNumber();
        if x.Some? && OutOfRange(p, x.value) {
          Error();
        }
        var f := OrElse(x, 0.0);
        var code :- ReadCode();
        return Fine(UseNorm(f, f, f, code));
      }
      var like :- CheckToken("USELIKEAVG");
      if like {
        var code :- ReadCode();
        return Fine(UseLikeAvg(code));
      }
      var byclass :- CheckToken("USECLASSAVG");
      if byclass {
        var code :- ReadCode();
        return Fine(UseClassAvg(code));
      }
      var x :- ReadNumber();
      return Fine(Entry.Valid(OrElse(x, 0.0)));
    }

    /** Lines 204-209. */
    method FindAssignment(asgts: seq<Assignment>, name: string) returns (n: nat)
      ensures n == Find(asgts, name)
    {
      n := 0;
      while n < |asgts| && asgts[n].name != name
        invariant n <= |asgts| && forall k :: 0 <= k < n ==> asgts[k].name != name
      {
        n := n + 1;
      }
    }

    /** Lines 189-222. */
    method ReadScores(asgts: seq<Assignment>) returns (r: Outcome<seq<Score>>)
      requires Valid()
      modifies this, tokenbuf
      ensures Valid() && Done(r, Scores(asgts, old(Now())), Now())
      decreases Now().Size()
    {
      hide Check, Ready, Grade, NewlineExpected, Find;
      var found :- CheckToken("SCORE");
      if !found {
        return Fine([]);
      }
      var _ :- NeedToken();
      if !IsToken() {
        return Stop;
      }
      var name := Buffered();
      var n := FindAssignment(asgts, name);
      if n == |asgts| {
        return Stop;
      }
      FlushToken();
      var e :- ReadGrade(asgts[n].policy);
      var _ :- ExpectNewline();
      var more :- ReadScores(asgts);
      return Fine([Score(n, e)] + more);
    }

    /** Lines 172-187. */
    method ReadStudents(asgts: seq<Assignment>) returns (r: Outcome<seq<Student>>)
      requires Valid()
      modifies this, tokenbuf
      ensures Valid() && Done(r, Students(asgts, old(Now())), Now())
      decreases Now().Size()
    {
      hide Check, Word, Name, Scores;
      var found :- CheckToken("STUDENT");
      if !found {
        return Fine([]);
      }
      var id :- ReadWord();
      var surname :- ReadWord();
      var name :- ReadName();
      var scores :- ReadScores(asgts);
      var more :- ReadStudents(asgts);
      return Fine([Student(id, surname, name, scores)] + more);
    }

    /** Lines 134-170, for a single file. */
    method ReadSections(asgts: seq<Assignment>) returns (r: Outcome<seq<Section>>)
      requires Valid()
      modifies this, tokenbuf
      ensures Valid() && Done(r, Sections(asgts, old(Now())), Now())
      decreases Now().Size()
    {
      hide Ready, Name, PersonRead, Students;
      var _ :- NeedToken();
      if !IsToken() {
        return Fine([]);
      }
      var key := Buffered();
      if key == "FILE" {
        return Stop;
      }
      if key != "SECTION" {
        return Fine([]);
      }
      FlushToken();
      var name :- ReadName();
      var assistant :- ReadPerson("ASSISTANT");
      var roster :- ReadStudents(asgts);
      var more :- ReadSections(asgts);
      return Fine([Section(name, assistant, roster)] + more);
    }

    /** Lines 62-81, with expecttoken (lines 586-595). */
    method ReadCourse() returns (r: Outcome<Course>)
      requires Valid()
      modifies this, tokenbuf
      ensures Valid() && Done(r, CourseRead(old(Now())), Now())
    {
      hide Ready, Word, Name, PersonRead, Assignments, Sections;
      var _ :- NeedToken();
      var key := "";
      if IsToken() {
        key := Buffered();
      }
      if key == "COURSE" {
        FlushToken();
      } else {
        Error();
      }
      var number :- ReadWord();
      var title :- ReadName();
      var professor :- ReadPerson("PROFESSOR");
      var asgts :- ReadAssignments();
      var sections :- ReadSections(asgts);
      return Fine(Course(number, title, professor, asgts, sections));
    }
  }

  /** Lines 37-60, on the text of the file. */
  method ReadFile(text: string) returns (r: Outcome<(Course, nat)>)
    ensures r == FileRead(text)
  {
    hide BlanksGobbled, CourseRead;
    var reader := new Reader(text);
    var _ :- reader.GobbleBlankLines();
    var c :- reader.ReadCourse();
    var _ :- reader.GobbleBlankLines();
    if reader.IsToken() || reader.pos < |reader.input| {
      reader.Error();
    }
    return Fine((c, reader.errors));
  }

  /** Each method takes the text rest that is printed after it. */
  class Writer {
    var out: string

    constructor ()
      ensures out == ""
    {
      out := "";
    }

    method Emit(s: string, ghost rest: string)
      modifies this
      ensures out + rest == old(out) + (s + rest)
    {
      out := out + s;
      Regroup(old(out), s, rest);
    }

    /** " %s" */
    method EmitField(w: string, ghost rest: string)
      modifies this
      ensures out + rest == old(out) + Field(w, rest)
    {
      Emit(" ", w + rest);
      Emit(w, rest);
    }

    /** Lines 14-28, and the end of line 73. */
    method WriteNames(p: Person, ghost rest: string)
      modifies this
      ensures out + rest == old(out) + PutPerson(p, rest)
    {
      EmitField(p.surname, "," + Field(p.name, EndLine(rest)));
      Emit(",", Field(p.name, EndLine(rest)));
      EmitField(p.name, EndLine(rest));
      Emit("\n", rest);
    }

    method WritePerson(key: string, p: Option<Person>, ghost rest: string)
      modifies this
      ensures out + rest == old(out) + PutPersonLine(key, p, rest)
    {
      if p == None {
        return;
      }
      EmitField(key, PutPerson(p.value, rest));
      WriteNames(p.value, rest);
    }

    /** Line 110. */
    method WriteGroup(g: Group, ghost rest: string)
      modifies this
      ensures out + rest == old(out) + PutGroup(g, rest)
    {
      EmitField(if g == ByClass then "BYCLASS" else "BYSECTION", EndLine(rest));
      Emit("\n", rest);
    }

    /** Lines 96-111. */
    method WritePolicy(a: Assignment, ghost rest: string)
      modifies this
      ensures out + rest == old(out) + PutPolicy(a, rest)
    {
      hide F, PutGroup, Field;
      ghost var group := PutGroup(a.group, rest);
      match a.policy {
        case Raw => return;
        case Linear(mean, dev) =>
          ghost var devs := "," + Field(F(dev), group);
          Emit(" ", Field("NORMALIZE", Field("LINEAR", ":" + Field(F(mean), devs))));
          EmitField("NORMALIZE", Field("LINEAR", ":" + Field(F(mean), devs)));
          EmitField("LINEAR", ":" + Field(F(mean), devs));
          Emit(":", Field(F(mean), devs));
          EmitField(F(mean), devs);
          Emit(",", Field(F(dev), group));
          EmitField(F(dev), group);
        case Quantile =>
          Emit(" ", Field("NORMALIZE", Field("QUANTILE", group)));
          EmitField("NORMALIZE", Field("QUANTILE", group));
          EmitField("QUANTILE", group);
        case Scale(scale) =>
          Emit(" ", Field("NORMALIZE", Field("SCALE", Field(F(scale), group))));
          EmitField("NORMALIZE", Field("SCALE", Field(F(scale), group)));
          EmitField("SCALE", Field(F(scale), group));
          EmitField(F(scale), group);
      }
      WriteGroup(a.group, rest);
    }

    /** "  KEY %f\n" (lines 95, 113). */
    method WriteNumberLine(key: string, x: real, ghost rest: string)
      modifies this
      ensures out + rest == old(out) + (" " + Field(key, Field(F(x), EndLine(rest))))
    {
      hide F, Field;
      Emit(" ", Field(key, Field(F(x), EndLine(rest))));
      EmitField(key, Field(F(x), EndLine(rest)));
      EmitField(F(x), EndLine(rest));
      Emit("\n", rest);
    }

    /** Lines 89-115. */
    method WriteAssignment(a: Assignment, ghost rest: string)
      modifies this
      ensures out + rest == old(out) + PutAssignment(a, rest)
    {
      hide F, Field, PutPolicy;
      ghost var weight := PutWeight(a, PutPolicy(a, PutMax(a, rest)));
      EmitField("ASSIGNMENT", Field(a.name, Field(a.atype, EndLine(weight))));
      EmitField(a.name, Field(a.atype, EndLine(weight)));
      EmitField(a.atype, EndLine(weight));
      Emit("\n", weight);
      if a.weight.Some? {
        WriteNumberLine("WEIGHT", a.weight.value, PutPolicy(a, PutMax(a, rest)));
      }
      WritePolicy(a, PutMax(a, rest));
      if a.max != 0.0 {
        WriteNumberLine("MAXIMUM", a.max, rest);
      }
    }

    /** Lines 35-63. */
    method WriteEntry(e: Entry, policy: Policy, ghost rest: string)
      modifies this
      ensures out + rest == old(out) + PutEntry(e, policy, rest)
    {
      hide F, Field;
      match e {
        case Valid(grade) =>
          EmitField(F(grade), rest);
          return;
        case UseRaw(grade, code) =>
          EmitField("USERAW", Field(F(grade), Field(code, rest)));
          EmitField(F(grade), Field(code, rest));
        case UseNorm(q, l, s, code) =>
          ghost var last := Field("USELIKEAVG", Field(code, rest));
          if policy != Raw {
            var norm := if policy == Quantile then q else if policy.Linear? then l else s;
            EmitField("USENORM", Field(F(norm), last));
            EmitField(F(norm), last);
          }
          EmitField("USELIKEAVG", Field(code, rest));
        case UseLikeAvg(code) => EmitField("USELIKEAVG", Field(code, rest));
        case UseClassAvg(code) => EmitField("USECLASSAVG", Field(code, rest));
      }
      EmitField(e.code, rest);
    }

    /** Lines 30-66. */
    method WriteScore(asgts: seq<Assignment>, s: Score, ghost rest: string)
      requires s.asgt < |asgts|
      modifies this
      ensures out + rest == old(out) + PutScore(asgts, s, rest)
    {
      hide Field, PutEntry;
      var a := asgts[s.asgt];
      ghost var entry := PutEntry(s.entry, a.policy, EndLine(rest));
      Emit("  ", Field("SCORE", Field(a.name, entry)));
      EmitField("SCORE", Field(a.name, entry));
      EmitField(a.name, entry);
      WriteEntry(s.entry, a.policy, EndLine(rest));
      Emit("\n", rest);
    }

    /** Lines 68-76. */
    method WriteStudent(asgts: seq<Assignment>, s: Student, ghost rest: string)
      requires ScoresIn(asgts, s.rawscores)
      modifies this
      ensures out + rest == old(out) + PutStudent(asgts, s, rest)
    {
      hide Field, PutScore, PutPerson;
      var names := Person(s.surname, s.name);
      ghost var scores := PutScores(asgts, s.rawscores, rest);
      Emit(" ", Field("STUDENT", Field(s.id, PutPerson(names, scores))));
      EmitField("STUDENT", Field(s.id, PutPerson(names, scores)));
      EmitField(s.id, PutPerson(names, scores));
      WriteNames(names, scores);
      ghost var goal := out + scores;
      for k := 0 to |s.rawscores|
        invariant out + PutScores(asgts, s.rawscores[k..], rest) == goal
      {
        assert s.rawscores[k..][1..] == s.rawscores[k + 1..];
        WriteScore(asgts, s.rawscores[k], PutScores(asgts, s.rawscores[k + 1..], rest));
      }
    }

    /** Lines 78-87. */
    method WriteSection(asgts: seq<Assignment>, s: Section, ghost rest: string)
      requires RosterIn(asgts, s.roster)
      modifies this
      ensures out + rest == old(out) + PutSection(asgts, s, rest)
    {
      hide Field, PutStudent, PutPersonLine;
      ghost var roster := PutStudents(asgts, s.roster, rest);
      ghost var people := PutPersonLine("ASSISTANT", s.assistant, roster);
      EmitField("SECTION", Field(s.name, EndLine(people)));
      EmitField(s.name, EndLine(people));
      Emit("\n", people);
      WritePerson("ASSISTANT", s.assistant, roster);
      ghost var goal := out + roster;
      for k := 0 to |s.roster|
        invariant out + PutStudents(asgts, s.roster[k..], rest) == goal
      {
        assert s.roster[k..][1..] == s.roster[k + 1..];
        WriteStudent(asgts, s.roster[k], PutStudents(asgts, s.roster[k + 1..], rest));
      }
    }

    method WriteAssignments(asgts: seq<Assignment>, ghost rest: string)
      modifies this
      ensures out + rest == old(out) + PutAssignments(asgts, rest)
    {
      hide PutAssignment;
      for k := 0 to |asgts|
        invariant out + PutAssignments(asgts[k..], rest) == old(out) + PutAssignments(asgts, rest)
      {
        assert asgts[k..][1..] == asgts[k + 1..];
        WriteAssignment(asgts[k], PutAssignments(asgts[k + 1..], rest));
      }
    }

    method WriteSections(asgts: seq<Assignment>, ss: seq<Section>, ghost rest: string)
      requires SectionsIn(asgts, ss)
      modifies this
      ensures out + rest == old(out) + PutSections(asgts, ss, rest)
    {
      hide PutSection;
      for k := 0 to |ss|
        invariant out + PutSections(asgts, ss[k..], rest) == old(out) + PutSections(asgts, ss, rest)
      {
        assert ss[k..][1..] == ss[k + 1..];
        WriteSection(asgts, ss[k], PutSections(asgts, ss[k + 1..], rest));
      }
    }

    /** Lines 117-129. */
    method WriteCourse(c: Course)
      requires SectionsIn(c.assignments, c.sections)
      modifies this
      ensures out == old(out) + PutCourse(c, "")
    {
      hide Field, PutPersonLine, PutAssignments, PutSections;
      ghost var sections := PutSections(c.assignments, c.sections, "");
      ghost var asgts := PutAssignments(c.assignments, sections);
      ghost var people := PutPersonLine("PROFESSOR", c.professor, asgts);
      Emit("COURSE", Field(c.number, Field(c.title, EndLine(people))));
      EmitField(c.number, Field(c.title, EndLine(people)));
      EmitField(c.title, EndLine(people));
      Emit("\n", people);
      WritePerson("PROFESSOR", c.professor, asgts);
      WriteAssignments(c.assignments, sections);
      WriteSections(c.assignments, c.sections, "");
      assert out + "" == out;
    }
  }
}
