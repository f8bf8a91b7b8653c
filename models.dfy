/**
 * The records of core/models.py that the face-verification workflow reads and
 * writes: the user account and the per-student academic record.
 */
module Models {
  import opened Wrappers

  type UserId = nat
  type RecordId = nat

  /** A face encoding as the extractor produces it (128 measurements); the model never inspects it. */
  type Encoding = seq<real>

  /** The account fields the core consults. No view of the core changes them. */
  datatype User = User(
    id: UserId,
    username: string,
    isStudent: bool,
    isTeacher: bool,
    isStaff: bool,
    enrollmentNumber: Option<string>)

  /** The performance tiers, from lowest to highest. */
  datatype Tier = Poor | Average | Good | Excellent
  {
    /** Position of the tier in the order Poor < Average < Good < Excellent. */
    function Rank(): nat
    {
      match this
      case Poor => 0
      case Average => 1
      case Good => 2
      case Excellent => 3
    }

    /** The text stored in the performance column. */
    function Label(): string
    {
      match this
      case Poor => "Poor"
      case Average => "Average"
      case Good => "Good"
      case Excellent => "Excellent"
    }
  }

  /** The if/elif chain of the automatic performance rule. */
  function TierFor(marks: int): (t: Tier)
    ensures t.Rank() >= 1 <==> marks >= 40
    ensures t.Rank() >= 2 <==> marks >= 60
    ensures t.Rank() == 3 <==> marks >= 80
  {
    if marks >= 80 then Excellent
    else if marks >= 60 then Good
    else if marks >= 40 then Average
    else Poor
  }

  /** Each tier is exactly one band of marks. */
  lemma TierBands(marks: int)
    ensures TierFor(marks) == Excellent <==> 80 <= marks
    ensures TierFor(marks) == Good <==> 60 <= marks < 80
    ensures TierFor(marks) == Average <==> 40 <= marks < 60
    ensures TierFor(marks) == Poor <==> marks < 40
  {
  }

  /** More marks never give a lower tier. */
  lemma TierMonotone(marks1: int, marks2: int)
    requires marks1 <= marks2
    ensures TierFor(marks1).Rank() <= TierFor(marks2).Rank()
  {
  }

  /** No tier is stored as the column's default text. */
  lemma LabelNeverPending(t: Tier)
    ensures t.Label() != DefaultPerformance
  {
  }

  const DefaultPerformance := "Pending"

  /**
   * The academic record of one student (the complete definition of the model,
   * with the face encoding and the automatic performance rule).
   */
  class StudentData {
    const id: RecordId
    const student: User
    var faceEncoding: Option<Encoding>
    var attendance: real
    var marks: int
    var performance: string

    /** A new record with the column defaults; not yet saved. */
    constructor (id: RecordId, student: User)
      ensures this.id == id && this.student == student
      ensures faceEncoding == None && attendance == 0.0 && marks == 0
      ensures performance == DefaultPerformance
    {
      this.id := id;
      this.student := student;
      faceEncoding := None;
      attendance := 0.0;
      marks := 0;
      performance := DefaultPerformance;
    }

    /**
     * Persists the record after recomputing the performance tier from the
     * marks. Only the performance column is rewritten; saving a record whose
     * tier is already current changes nothing.
     */
    method Save()
      modifies this
      ensures performance == TierFor(marks).Label()
      ensures faceEncoding == old(faceEncoding) && attendance == old(attendance) && marks == old(marks)
      ensures old(performance) == TierFor(old(marks)).Label() ==> unchanged(this)
    {
      if marks >= 80 {
        performance := "Excellent";
      } else if marks >= 60 {
        performance := "Good";
      } else if marks >= 40 {
        performance := "Average";
      } else {
        performance := "Poor";
      }
    }

    /** The string form in effect: the later of the two definitions in the class. */
    function ToString(): (s: string)
      ensures |s| == |student.username| + 7
      ensures s[..|student.username|] == student.username
      ensures s[|student.username|..] == "'s Data"
    {
      student.username + "'s Data"
    }
  }
}
