/** The bulk-promotion draft editor: one draft entry per student, initialised to "advance one
    grade, same class and number", then edited by the retain checkbox and the three input cells. */
module PromotionClient {
  import opened Text

  /** `StudentBase`: a student's current placement as the promotion page hands it over. */
  datatype StudentBase = StudentBase(id: string, sNumber: string, legalName: string,
                                     currentGrade: int, currentClass: string, currentNo: int)

  /** `PromotionEntry`: the student's base fields and the draft of next year's placement. */
  datatype PromotionEntry = PromotionEntry(base: StudentBase, nextGrade: int, nextClass: string,
                                           nextNo: int, isRetained: bool)

  /** `keyof PromotionEntry`. */
  datatype Key = Id | SNumber | LegalName | CurrentGrade | CurrentClass | CurrentNo
               | NextGrade | NextClass | NextNo | IsRetained

  /** A value stored in a field. */
  datatype Value = Str(text: string) | Number(number: int) | Flag(flag: bool)

  /** `value` has the type of the field `key` names. */
  predicate Fits(key: Key, value: Value)
  {
    match key
    case CurrentGrade | CurrentNo | NextGrade | NextNo => value.Number?
    case IsRetained => value.Flag?
    case _ => value.Str?
  }

  /** `entry[key]`. */
  function Get(e: PromotionEntry, key: Key): (v: Value)
    ensures Fits(key, v)
  {
    match key
    case Id => Str(e.base.id)
    case SNumber => Str(e.base.sNumber)
    case LegalName => Str(e.base.legalName)
    case CurrentGrade => Number(e.base.currentGrade)
    case CurrentClass => Str(e.base.currentClass)
    case CurrentNo => Number(e.base.currentNo)
    case NextGrade => Number(e.nextGrade)
    case NextClass => Str(e.nextClass)
    case NextNo => Number(e.nextNo)
    case IsRetained => Flag(e.isRetained)
  }

  /** `{ ...entry, [key]: value }`. */
  function WithField(e: PromotionEntry, key: Key, value: Value): (r: PromotionEntry)
    requires Fits(key, value)
    ensures Get(r, key) == value
    ensures forall other :: other != key ==> Get(r, other) == Get(e, other)
  {
    match key
    case Id => e.(base := e.base.(id := value.text))
    case SNumber => e.(base := e.base.(sNumber := value.text))
    case LegalName => e.(base := e.base.(legalName := value.text))
    case CurrentGrade => e.(base := e.base.(currentGrade := value.number))
    case CurrentClass => e.(base := e.base.(currentClass := value.text))
    case CurrentNo => e.(base := e.base.(currentNo := value.number))
    case NextGrade => e.(nextGrade := value.number)
    case NextClass => e.(nextClass := value.text)
    case NextNo => e.(nextNo := value.number)
    case IsRetained => e.(isRetained := value.flag)
  }

  /** Writing back a field's own value leaves the entry as it was. */
  lemma WithFieldOwnValue(e: PromotionEntry, key: Key)
    ensures WithField(e, key, Get(e, key)) == e
  {
  }

  /** The draft of one student before any edit. */
  function Draft(s: StudentBase): PromotionEntry
  {
    PromotionEntry(s, s.currentGrade + 1, s.currentClass, s.currentNo, false)
  }

  /** `students.map(...)` in the initialising effect: one draft per student, in the same order, that
      keeps the base fields, advances the grade by one, keeps class and number, and does not retain. */
  function InitialDrafts(students: seq<StudentBase>): (r: seq<PromotionEntry>)
    ensures |r| == |students|
    ensures forall i :: 0 <= i < |r| ==>
      && r[i].base == students[i] && r[i].nextGrade == students[i].currentGrade + 1
      && r[i].nextClass == students[i].currentClass && r[i].nextNo == students[i].currentNo
      && !r[i].isRetained
  {
    seq(|students|, i requires 0 <= i < |students| => Draft(students[i]))
  }

  /** The retain flag says exactly whether the next grade repeats the current one. */
  predicate RetainConsistent(e: PromotionEntry)
  {
    e.isRetained <==> e.nextGrade == e.base.currentGrade
  }

  predicate AllRetainConsistent(es: seq<PromotionEntry>)
  {
    forall i :: 0 <= i < |es| ==> RetainConsistent(es[i])
  }

  /** The effect of the retain checkbox on one entry: checking it repeats the current grade,
      unchecking it goes back to the next grade, overwriting whatever grade was typed. */
  function WithRetain(e: PromotionEntry, checked: bool): (r: PromotionEntry)
    ensures r.isRetained == checked
    ensures r.nextGrade == if checked then e.base.currentGrade else e.base.currentGrade + 1
    ensures r.base == e.base && r.nextClass == e.nextClass && r.nextNo == e.nextNo
  {
    e.(isRetained := checked, nextGrade := if checked then e.base.currentGrade else e.base.currentGrade + 1)
  }

  lemma InitialDraftsConsistent(students: seq<StudentBase>)
    ensures AllRetainConsistent(InitialDrafts(students))
  {
  }

  /** Whatever state an entry was in, the checkbox leaves it consistent. */
  lemma WithRetainConsistent(e: PromotionEntry, checked: bool)
    ensures RetainConsistent(WithRetain(e, checked))
  {
  }

  /** Setting the checkbox to the value it already has changes nothing more. */
  lemma WithRetainIdempotent(e: PromotionEntry, checked: bool)
    ensures WithRetain(WithRetain(e, checked), checked) == WithRetain(e, checked)
  {
  }

  /** Typing a grade does not touch the retain flag, so it can break the consistency: typing the
      current grade into an entry that is not retained. */
  lemma TypedGradeCanBreakConsistency(e: PromotionEntry)
    requires !e.isRetained
    ensures !RetainConsistent(WithField(e, NextGrade, Number(e.base.currentGrade)))
  {
  }

  /** Typing back the number a numeric cell displays leaves the entry unchanged. */
  lemma RetypingDisplayedGradeIsNoOp(e: PromotionEntry)
    ensures WithField(e, NextGrade, Number(NumberInput(IntString(e.nextGrade)))) == e
  {
    ParseIntString(e.nextGrade);
  }

  /** Text that holds no number is stored as grade 0. */
  lemma UnparsableGradeIsZero(e: PromotionEntry, text: string)
    requires ParseInt(text).None?
    ensures WithField(e, NextGrade, Number(NumberInput(text))).nextGrade == 0
  {
  }

  /** The editor's state: the draft entries, updated in place by the two handlers. */
  class PromotionEditor {
    var entries: array<PromotionEntry>

    /** The initialising effect: one draft per student. */
    constructor (students: seq<StudentBase>)
      ensures fresh(entries)
      ensures entries[..] == InitialDrafts(students)
      ensures AllRetainConsistent(entries[..])
    {
      var drafts := InitialDrafts(students);
      entries := new PromotionEntry[|drafts|](i requires 0 <= i < |drafts| => drafts[i]);
    }

    /** `handleRetainChange(index, checked)`: only the entry at `index` changes, as `WithRetain`
        says; an editor whose entries were all consistent stays so. */
    method RetainChange(index: nat, checked: bool)
      requires index < entries.Length
      modifies entries
      ensures entries[..] == old(entries[..])[index := WithRetain(old(entries[index]), checked)]
      ensures AllRetainConsistent(old(entries[..])) ==> AllRetainConsistent(entries[..])
    {
      var e := entries[index];
      if checked {
        e := e.(isRetained := true);
        e := e.(nextGrade := e.base.currentGrade);
      } else {
        e := e.(isRetained := false);
        e := e.(nextGrade := e.base.currentGrade + 1);
      }
      entries[index] := e;
    }

    /** `handleInputChange(index, key, value)`: only field `key` of the entry at `index` changes. */
    method InputChange(index: nat, key: Key, value: Value)
      requires index < entries.Length && Fits(key, value)
      modifies entries
      ensures entries[..] == old(entries[..])[index := WithField(old(entries[index]), key, value)]
    {
      entries[index] := WithField(entries[index], key, value);
    }

    /** The next-grade cell: `parseInt(text) || 0`. */
    method NextGradeTyped(index: nat, text: string)
      requires index < entries.Length
      modifies entries
      ensures entries[..] == old(entries[..])[index := old(entries[index]).(nextGrade := NumberInput(text))]
    {
      InputChange(index, NextGrade, Number(NumberInput(text)));
    }

    /** The next-class cell: the text as typed. */
    method NextClassTyped(index: nat, text: string)
      requires index < entries.Length
      modifies entries
      ensures entries[..] == old(entries[..])[index := old(entries[index]).(nextClass := text)]
    {
      InputChange(index, NextClass, Str(text));
    }

    /** The next-number cell: `parseInt(text) || 0`. */
    method NextNoTyped(index: nat, text: string)
      requires index < entries.Length
      modifies entries
      ensures entries[..] == old(entries[..])[index := old(entries[index]).(nextNo := NumberInput(text))]
    {
      InputChange(index, NextNo, Number(NumberInput(text)));
    }
  }
}
