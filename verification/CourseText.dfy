/** A course as writecourse prints it (hw2/src/write.c) and the numbers and lists in it. Every printing
    function takes the text that follows. */
module CourseText {

  datatype Option<T> = None | Some(value: T)

  datatype Person = Person(surname: string, name: string)

  datatype Policy = Raw | Linear(mean: real, stddev: real) | Quantile | Scale(scale: real)

  datatype Group = ByClass | BySection

  datatype Assignment = Assignment(name: string, atype: string, weight: Option<real>, policy: Policy, group: Group,
    max: real)

  datatype Entry =
    | Valid(grade: real)
    | UseRaw(raw: real, code: string)
    | UseNorm(qnorm: real, lnorm: real, snorm: real, code: string)
    | UseLikeAvg(code: string)
    | UseClassAvg(code: string)

  datatype Score = Score(asgt: nat, entry: Entry)      // asgt: the place of the assignment in the course

  datatype Student = Student(id: string, surname: string, name: string, rawscores: seq<Score>)

  datatype Section = Section(name: string, assistant: Option<Person>, roster: seq<Student>)

  datatype Course = Course(number: string, title: string, professor: Option<Person>, assignments: seq<Assignment>,
    sections: seq<Section>)

  // ---------- printf's %f ----------

  predicate IsDigit(c: char) {
    '0' <= c <= '9'
  }

  function Digit(d: nat): (c: char)
    requires d < 10
    ensures IsDigit(c) && DigitOf(c) == d
  {
    "0123456789"[d]
  }

  function DigitOf(c: char): nat
    requires IsDigit(c)
  {
    (c - '0') as nat
  }

  function Decimal(n: nat): (s: string)
    ensures s != []
  {
    if n < 10 then [Digit(n)] else Decimal(n / 10) + [Digit(n % 10)]
  }

  /** The last k digits of n. */
  function Padded(n: nat, k: nat): (s: string)
    ensures |s| == k
    decreases k
  {
    if k == 0 then [] else Padded(n / 10, k - 1) + [Digit(n % 10)]
  }

  /** n millionths with six decimals. */
  function Fixed(n: int): string {
    var a := if n < 0 then -n else n;
    (if n < 0 then "-" else "") + (Decimal(a / 1000000) + ("." + Padded(a % 1000000, 6)))
  }

  /** %f, rounding to the nearest millionth. */
  function F(x: real): string {
    Fixed((x * 1000000.0 + 0.5).Floor)
  }

  // ---------- sscanf's %f, in decimal notation ----------

  function Leading(s: string): (n: nat)
    ensures n <= |s| && forall i :: 0 <= i < n ==> IsDigit(s[i])
  {
    if s != [] && IsDigit(s[0]) then 1 + Leading(s[1..]) else 0
  }

  function Val(s: string): nat
    requires forall i :: 0 <= i < |s| ==> IsDigit(s[i])
  {
    if s == [] then 0 else Val(s[..|s| - 1]) * 10 + DigitOf(s[|s| - 1])
  }

  function Pow10(n: nat): (r: nat)
    ensures r > 0
  {
    if n == 0 then 1 else 10 * Pow10(n - 1)
  }

  /** The digits s begins with. */
  function Digits(s: string): (d: string)
    ensures d <= s && forall i :: 0 <= i < |d| ==> IsDigit(d[i])
  {
    s[..Leading(s)]
  }

  function ScanUnsigned(s: string): Option<real> {
    var whole := Digits(s);
    var rest := s[|whole|..];
    var part := if rest != [] && rest[0] == '.' then Digits(rest[1..]) else [];
    if whole == [] && part == [] then None
    else Some(Combined(whole, part))
  }

  function Combined(whole: string, part: string): real
    requires forall i :: 0 <= i < |whole| ==> IsDigit(whole[i])
    requires forall i :: 0 <= i < |part| ==> IsDigit(part[i])
  {
    Val(whole) as real + Val(part) as real / Pow10(|part|) as real
  }

  /** sscanf(s, "%f", &f); exponents, hexadecimal, inf and nan are not modelled. */
  function Scan(s: string): Option<real> {
    if s != [] && s[0] == '-' then
      var r := ScanUnsigned(s[1..]);
      if r.Some? then Some(-r.value) else None
    else if s != [] && s[0] == '+' then ScanUnsigned(s[1..])
    else ScanUnsigned(s)
  }

  // ---------- the printers ----------

  /** " %s" */
  function Field(w: string, rest: string): string {
    " " + (w + rest)
  }

  function EndLine(rest: string): string {
    "\n" + rest
  }

  /** "%s, %s\n" after a keyword (lines 19, 27, 73). */
  function PutPerson(p: Person, rest: string): string {
    Field(p.surname, "," + Field(p.name, EndLine(rest)))
  }

  /** Lines 14-28. */
  function PutPersonLine(key: string, p: Option<Person>, rest: string): string {
    if p.None? then rest else Field(key, PutPerson(p.value, rest))
  }

  function PutGroup(g: Group, rest: string): string {
    Field(if g.ByClass? then "BYCLASS" else "BYSECTION", EndLine(rest))
  }

  /** Lines 96-111. */
  function PutPolicy(a: Assignment, rest: string): string {
    match a.policy
    case Raw => rest
    case Linear(mean, stddev) => " " + Field("NORMALIZE",
      Field("LINEAR", ":" + Field(F(mean), "," + Field(F(stddev), PutGroup(a.group, rest)))))
    case Quantile => " " + Field("NORMALIZE", Field("QUANTILE", PutGroup(a.group, rest)))
    case Scale(scale) => " " + Field("NORMALIZE", Field("SCALE", Field(F(scale), PutGroup(a.group, rest))))
  }

  function PutWeight(a: Assignment, rest: string): string {
    if a.weight.None? then rest else " " + Field("WEIGHT", Field(F(a.weight.value), EndLine(rest)))
  }

  function PutMax(a: Assignment, rest: string): string {
    if a.max == 0.0 then rest else " " + Field("MAXIMUM", Field(F(a.max), EndLine(rest)))
  }

  /** Lines 89-115. */
  function PutAssignment(a: Assignment, rest: string): string {
    Field("ASSIGNMENT", Field(a.name, Field(a.atype, EndLine(PutWeight(a, PutPolicy(a, PutMax(a, rest)))))))
  }

  /** Lines 35-64. A USENORM falls through into USELIKEAVG. */
  function PutEntry(e: Entry, policy: Policy, rest: string): string {
    match e
    case Valid(grade) => Field(F(grade), rest)
    case UseRaw(grade, code) => Field("USERAW", Field(F(grade), Field(code, rest)))
    case UseNorm(q, l, s, code) =>
      var last := Field("USELIKEAVG", Field(code, rest));
      (match policy
       case Raw => last
       case Quantile => Field("USENORM", Field(F(q), last))
       case Linear(_, _) => Field("USENORM", Field(F(l), last))
       case Scale(_) => Field("USENORM", Field(F(s), last)))
    case UseLikeAvg(code) => Field("USELIKEAVG", Field(code, rest))
    case UseClassAvg(code) => Field("USECLASSAVG", Field(code, rest))
  }

  /** Lines 30-66. */
  function PutScore(asgts: seq<Assignment>, s: Score, rest: string): string
    requires s.asgt < |asgts|
  {
    "  " + Field("SCORE", Field(asgts[s.asgt].name, PutEntry(s.entry, asgts[s.asgt].policy, EndLine(rest))))
  }

  ghost predicate ScoresIn(asgts: seq<Assignment>, ss: seq<Score>) {
    forall s :: s in ss ==> s.asgt < |asgts|
  }

  function PutScores(asgts: seq<Assignment>, ss: seq<Score>, rest: string): string
    requires ScoresIn(asgts, ss)
  {
    if ss == [] then rest else PutScore(asgts, ss[0], PutScores(asgts, ss[1..], rest))
  }

  /** Lines 68-76. */
  function PutStudent(asgts: seq<Assignment>, s: Student, rest: string): string
    requires ScoresIn(asgts, s.rawscores)
  {
    " " + Field("STUDENT", Field(s.id, PutPerson(Person(s.surname, s.name), PutScores(asgts, s.rawscores, rest))))
  }

  ghost predicate RosterIn(asgts: seq<Assignment>, ss: seq<Student>) {
    forall s :: s in ss ==> ScoresIn(asgts, s.rawscores)
  }

  function PutStudents(asgts: seq<Assignment>, ss: seq<Student>, rest: string): string
    requires RosterIn(asgts, ss)
  {
    if ss == [] then rest else PutStudent(asgts, ss[0], PutStudents(asgts, ss[1..], rest))
  }

  /** Lines 78-87. */
  function PutSection(asgts: seq<Assignment>, s: Section, rest: string): string
    requires RosterIn(asgts, s.roster)
  {
    Field("SECTION", Field(s.name,
      EndLine(PutPersonLine("ASSISTANT", s.assistant, PutStudents(asgts, s.roster, rest)))))
  }

  ghost predicate SectionsIn(asgts: seq<Assignment>, ss: seq<Section>) {
    forall s :: s in ss ==> RosterIn(asgts, s.roster)
  }

  function PutSections(asgts: seq<Assignment>, ss: seq<Section>, rest: string): string
    requires SectionsIn(asgts, ss)
  {
    if ss == [] then rest else PutSection(asgts, ss[0], PutSections(asgts, ss[1..], rest))
  }

  function PutAssignments(asgts: seq<Assignment>, rest: string): string {
    if asgts == [] then rest else PutAssignment(asgts[0], PutAssignments(asgts[1..], rest))
  }

  /** Lines 117-129. */
  function PutCourse(c: Course, rest: string): string
    requires SectionsIn(c.assignments, c.sections)
  {
    "COURSE" + Field(c.number, Field(c.title, EndLine(
      PutPersonLine("PROFESSOR", c.professor,
        PutAssignments(c.assignments, PutSections(c.assignments, c.sections, rest))))))
  }
}
