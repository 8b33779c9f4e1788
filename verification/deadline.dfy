/**
 The Deadline task: a description, a completion flag, a list of tags and a
 due date-time. Every operation is a pure function of the record.

 The display string of the base task class is not part of this model;
 `ToString` takes it as a parameter `baseString(isMarked, description, tags)`,
 a function of the three fields the base class holds, and assumes nothing
 else about it.
 */
module Deadlines {
  import opened Wrappers
  import opened Timestamps

  datatype Deadline = Deadline(description: string, isMarked: bool, tags: seq<string>, due: Timestamp)

  /** What an `equals` call may be handed: a Deadline, or any other object (null included). */
  datatype Comparand = DeadlineValue(deadline: Deadline) | OtherValue

  /**
   The two-argument constructor: the task starts unmarked. The tags are the
   base class's default, which this model takes to be empty.
   */
  function NewDeadline(description: string, due: Timestamp): (r: Deadline)
    ensures r.description == description && r.due == due
    ensures !r.isMarked
  {
    Deadline(description, false, [], due)
  }

  /** The constructor that also takes the completion flag; the tags are the base class's default, as above. */
  function NewMarkedDeadline(description: string, due: Timestamp, isMarked: bool): (r: Deadline)
    ensures r.description == description && r.due == due
    ensures r.isMarked == isMarked
  {
    Deadline(description, isMarked, [], due)
  }

  /** The constructor that takes every field. */
  function NewTaggedDeadline(description: string, due: Timestamp, isMarked: bool, tags: seq<string>): (r: Deadline)
    ensures r.description == description && r.due == due
    ensures r.isMarked == isMarked && r.tags == tags
  {
    Deadline(description, isMarked, tags, due)
  }

  /** The one-letter type code of every Deadline. */
  function GetType(d: Deadline): (code: string)
    ensures code == "D"
  {
    "D"
  }

  /**
   Whether the deadline falls on `date`: the time of day of `due` plays no part.
   Any date is accepted, including one outside the years 1 to 9999.
   */
  function IsHappeningOnThatDate(d: Deadline, date: Date): (r: bool)
    ensures r <==> date.year == d.due.year && date.month == d.due.month && date.day == d.due.day
    ensures !ValidDate(date.year, date.month, date.day) ==> !r
  {
    date == DateOf(d.due)
  }

  /** The due date-time rendered as `MM dd yyyy HH:mm`. */
  function GetDue(d: Deadline): (s: string)
    ensures |s| == 16
    ensures s[2] == ' ' && s[5] == ' ' && s[10] == ' ' && s[13] == ':'
    ensures ReadTimestamp(s) == Some(d.due)
  {
    ReadFormat(d.due);
    Format(d.due)
  }

  /**
   Deadline equality: the other object must be a Deadline with the same
   description, completion flag and due date-time. Tags are not compared.
   */
  function Equals(d: Deadline, o: Comparand): (r: bool)
    ensures o.OtherValue? ==> !r
    ensures o.DeadlineValue? ==> (r <==> o.deadline == d.(tags := o.deadline.tags))
  {
    match o
    case OtherValue => false
    case DeadlineValue(c) =>
      c.description == d.description && c.isMarked == d.isMarked && c.due == d.due
  }

  /** The display string of the base task class, as a function of its completion flag, description and tags. */
  type BaseString = (bool, string, seq<string>) -> string

  /** The display string `[D]<base> (by: MM dd yyyy HH:mm)`. */
  function ToString(d: Deadline, baseString: BaseString): (s: string)
    ensures |s| == 3 + |baseString(d.isMarked, d.description, d.tags)| + 6 + 16 + 1
    ensures s[..3] == "[D]"
    ensures s[3..3 + |baseString(d.isMarked, d.description, d.tags)|] == baseString(d.isMarked, d.description, d.tags)
    ensures s[|s| - 23..|s| - 17] == " (by: "
    ensures s[|s| - 17..|s| - 1] == GetDue(d)
    ensures s[|s| - 1] == ')'
  {
    var dueDateString := GetDue(d);
    "[D]" + baseString(d.isMarked, d.description, d.tags) + " (by: " + dueDateString + ")"
  }

  /** Deadline equality as a relation between two Deadlines. */
  function SameDeadline(a: Deadline, b: Deadline): bool {
    Equals(a, DeadlineValue(b))
  }

  ghost predicate IsEquivalence(rel: (Deadline, Deadline) -> bool) {
    && (forall a :: rel(a, a))
    && (forall a, b :: rel(a, b) <==> rel(b, a))
    && (forall a, b, c :: rel(a, b) && rel(b, c) ==> rel(a, c))
  }

  /** Deadline equality is reflexive, symmetric and transitive. */
  lemma EqualsIsEquivalence()
    ensures IsEquivalence(SameDeadline)
  {
  }

  /** Replacing the tags on either side never changes the outcome of an equality test. */
  lemma EqualsIgnoresTags(a: Deadline, b: Deadline, aTags: seq<string>, bTags: seq<string>)
    ensures Equals(a.(tags := aTags), DeadlineValue(b.(tags := bTags))) == Equals(a, DeadlineValue(b))
  {
  }

  /** A Deadline never equals an object that is not a Deadline. */
  lemma NotEqualToOther(d: Deadline)
    ensures !Equals(d, OtherValue)
  {
  }

  /** The three constructors agree: an unmarked Deadline built with any tags equals the two-argument one. */
  lemma ConstructorsAgree(description: string, due: Timestamp, tags: seq<string>)
    ensures Equals(NewDeadline(description, due), DeadlineValue(NewMarkedDeadline(description, due, false)))
    ensures Equals(NewDeadline(description, due), DeadlineValue(NewTaggedDeadline(description, due, false, tags)))
  {
  }

  /** The rendered due string identifies the due date-time. */
  lemma GetDueInjective(a: Deadline, b: Deadline)
    ensures GetDue(a) == GetDue(b) <==> a.due == b.due
  {
  }

  /** A deadline occurs on a date exactly when its rendered due string starts with that date rendered as `MM dd yyyy`. */
  lemma OccursIffDatePrefix(d: Deadline, date: CalendarDate)
    ensures IsHappeningOnThatDate(d, date) <==> GetDue(d)[..10] == FormatDate(date)
  {
    FormatDateInjective(date, DateOf(d.due));
  }

  /** Two deadlines due on the same calendar date, at whatever times, occur on the same dates. */
  lemma OccursIgnoresTimeOfDay(a: Deadline, b: Deadline, date: Date)
    requires a.due.year == b.due.year && a.due.month == b.due.month && a.due.day == b.due.day
    ensures IsHappeningOnThatDate(a, date) == IsHappeningOnThatDate(b, date)
  {
  }

  /**
   Equal Deadlines, whatever their tags, have display strings that agree
   outside the base task's part; with equal tags they agree entirely.
   */
  lemma EqualDeadlinesDisplayAlike(a: Deadline, b: Deadline, baseString: BaseString)
    requires Equals(a, DeadlineValue(b))
    ensures var sa, sb := ToString(a, baseString), ToString(b, baseString);
            sa[..3] == sb[..3] && sa[|sa| - 23..] == sb[|sb| - 23..]
    ensures a.tags == b.tags ==> ToString(a, baseString) == ToString(b, baseString)
  {
    var sa, sb := ToString(a, baseString), ToString(b, baseString);
    assert sa[|sa| - 23..] == sa[|sa| - 23..|sa| - 17] + sa[|sa| - 17..|sa| - 1] + [sa[|sa| - 1]];
    assert sb[|sb| - 23..] == sb[|sb| - 23..|sb| - 17] + sb[|sb| - 17..|sb| - 1] + [sb[|sb| - 1]];
  }

  /** The display string opens with the type code in brackets. */
  lemma TypeCodeInDisplay(d: Deadline, baseString: BaseString)
    ensures ToString(d, baseString)[..3] == "[" + GetType(d) + "]"
  {
  }

  /** The display string determines the due date-time: its last 16 characters but one read back as `due`. */
  lemma DisplayDeterminesDue(d: Deadline, baseString: BaseString)
    ensures var s := ToString(d, baseString);
            ReadTimestamp(s[|s| - 17..|s| - 1]) == Some(d.due)
  {
  }

  /** Deadlines with different due date-times never share a display string. */
  lemma DisplayDistinguishesDue(a: Deadline, b: Deadline, baseString: BaseString)
    ensures ToString(a, baseString) == ToString(b, baseString) ==> a.due == b.due
  {
  }
}
