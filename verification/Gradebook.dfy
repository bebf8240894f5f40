/** The grades database in memory (hw2/include/gradedb.h, hw2/include/stats.h): the fields that
    sorting and statistics use. Links that only the reader sets are constants. */
module Gradebook {
  import opened Sequences

  class Assignment {
    const name: string
    const next: Assignment?
  }

  class Score {
    const asgt: Assignment?
    const grade: real
    const tallies: bool              // flag == VALID || subst == USERAW
    const next: Score?               // next score for student
    var cstats: Stats?               // statistics of the whole class for asgt
    var sstats: Stats?               // statistics of the student's section for asgt
  }

  class Student {
    const id: string
    const surname: string
    const name: string
    const composite: real            // computed before sorting
    const rawscores: Score?
    var next: Student?               // next student in section roster
    var cnext: Student?              // next student in course roster
  }

  class Section {
    const next: Section?
    var roster: Student?
  }

  class Course {
    const assignments: Assignment?
    const sections: Section?
    var roster: Student?
  }

  /** One bucket of a frequency table. */
  class Freqs {
    var score: real
    var count: int
    var numless: int
    var numlesseq: int
    var next: Freqs?

    constructor (score: real, next: Freqs?)
      ensures this.score == score && this.count == 1 && this.next == next
    {
      this.score, this.count, this.next := score, 1, next;
      numless, numlesseq := 0, 0;
    }
  }

  /** Classstats and Sectionstats, which share these fields. A class record heads the list of its
      section records. */
  class Stats {
    const asgt: Assignment?
    const section: Section?
    const sstats: Stats?
    const next: Stats?
    var tallied: int
    var valid: int
    var sum: real
    var sumsq: real
    var min: real
    var max: real
    var mean: real
    var stddev: real
    var freqs: Freqs?
    ghost var nodes: seq<Freqs>      // the buckets behind freqs
    ghost var scores: seq<real>      // the grades tallied so far

    /** The assignments at hw2/src/stats.c:54-61 and 71-77. */
    constructor (asgt: Assignment, section: Section?, sstats: Stats?, next: Stats?)
      ensures this.asgt == asgt && this.section == section && this.sstats == sstats && this.next == next
      ensures tallied == 0 && valid == 0 && sum == 0.0 && sumsq == 0.0 && freqs == null && nodes == [] && scores == []
    {
      this.asgt, this.section, this.sstats, this.next := asgt, section, sstats, next;
      tallied, valid, sum, sumsq, freqs := 0, 0, 0.0, 0.0, null;
      nodes, scores := [], [];
    }
  }

  /** Which list a roster is: getnext/setnext or getcnext/setcnext. */
  datatype Chain = Next | CNext

  function Get(s: Student, c: Chain): Student?
    reads s
  {
    if c.Next? then s.next else s.cnext
  }

  /** From head, the links of chain c lead through nodes and end in NULL. */
  ghost predicate Roster(head: Student?, nodes: seq<Student>, c: Chain)
    reads nodes
  {
    && Distinct(nodes)
    && (if nodes == [] then head == null else head == nodes[0] && Get(nodes[|nodes| - 1], c) == null)
    && forall i :: 0 <= i < |nodes| - 1 ==> Get(nodes[i], c) == nodes[i + 1]
  }

  /** The sections of a course in order. */
  ghost predicate SectionList(head: Section?, secs: seq<Section>) {
    if secs == [] then head == null else head == secs[0] && SectionList(head.next, secs[1..])
  }

  ghost predicate AssignmentList(head: Assignment?, asgts: seq<Assignment>) {
    if asgts == [] then head == null else head == asgts[0] && AssignmentList(head.next, asgts[1..])
  }

  ghost predicate ScoreList(head: Score?, scores: seq<Score>) {
    if scores == [] then head == null else head == scores[0] && ScoreList(head.next, scores[1..])
  }

  ghost predicate StatsList(head: Stats?, stats: seq<Stats>) {
    if stats == [] then head == null else head == stats[0] && StatsList(head.next, stats[1..])
  }
}
