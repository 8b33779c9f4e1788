# Deadline task and empty-description error, modelled in Dafny

This project models two pieces of a personal task tracker (the `rua` chatbot):

- the **Deadline** task value: a description, a completion flag, a list of
  tags and a due date-time; its three constructors, its type code `D`, its
  occurs-on-this-date test, its due-date rendering with the pattern
  `MM dd yyyy HH:mm`, its equality (which ignores tags) and its display string
  `[D]<base> (by: <due>)`;
- the **EmptyDescriptionException** message: a task-type word framed by the
  fixed text ` OOPS!!! The description of a ` and ` cannot be empty.\n`.

Files:

- `wrappers.dfy`: `Option`, the result of the read-back functions.
- `digits.dfy`: fixed-width zero-padded decimal fields (`Pad2`, `Pad4`) and
  their decimal value, proved to be mutual inverses.
- `timestamps.dfy`: calendar dates and minute-precision date-times (years
  1 to 9999, ISO leap years), their date part, the renderings `MM dd yyyy` and
  `MM dd yyyy HH:mm`, and a reader for each rendering. The reader is the
  renderer's partner: the two are proved inverse in both directions. Injectivity
  of the rendering follows from that.
- `deadline.dfy`: the Deadline record and its operations, with lemmas on
  equality, occurrence, rendering and display.
- `empty_description.dfy`: the exception record, its message, and a reader
  that recovers the task-type word from a message.

Valid date-times are a subset type (`Timestamp`), so the restriction to
minute precision and to years 1 to 9999 is part of every operation's
signature and not a separate `requires`.

The display string of the base task class (`super.toString()`) is not part of
this model. `Deadlines.ToString` takes it as a parameter
`baseString(isMarked, description, tags)`: a function of the three fields the
base class holds. Nothing else is assumed about it.

## Model

| member | source | states |
|---|---|---|
| Digits.ZeroPad | src/main/java/rua/task/Deadline.java:14 | each numeric field of the output pattern has exactly its width in decimal digits, and reading those digits back gives the number |
| Digits.ZeroPadOfDecimalValue | src/main/java/rua/task/Deadline.java:14 | every digit string of a given width is the padded rendering of its own value, so padding and reading are inverse |
| Timestamps.DateOf | src/main/java/rua/task/Deadline.java:71 | the date part of a due date-time keeps its year, month and day and drops the time of day |
| Timestamps.Format | src/main/java/rua/task/Deadline.java:14 | the `MM dd yyyy HH:mm` rendering has 16 characters, spaces at 2, 5 and 10, a colon at 13, digits elsewhere, and its first 10 characters are the `MM dd yyyy` rendering of the date part |
| Timestamps.ReadFormat | src/main/java/rua/task/Deadline.java:14 | reading a rendered date-time gives back the same year, month, day, hour and minute |
| Timestamps.FormatRead | src/main/java/rua/task/Deadline.java:14 | any string that reads as a valid date-time is exactly the rendering of that date-time |
| Timestamps.FormatDateInjective | src/main/java/rua/task/Deadline.java:14 | two calendar dates render alike in `MM dd yyyy` exactly when they are the same date |
| Timestamps.FormatInjective | src/main/java/rua/task/Deadline.java:14 | two valid date-times render alike exactly when they agree in year, month, day, hour and minute |
| Deadlines.NewDeadline | src/main/java/rua/task/Deadline.java:16-25 | the two-argument constructor stores description and due unchanged and yields an unmarked task |
| Deadlines.NewMarkedDeadline | src/main/java/rua/task/Deadline.java:27-37 | the three-argument constructor stores description, due and the completion flag unchanged |
| Deadlines.NewTaggedDeadline | src/main/java/rua/task/Deadline.java:39-50 | the four-argument constructor stores description, due, completion flag and tags unchanged |
| Deadlines.ConstructorsAgree | src/main/java/rua/task/Deadline.java:22-50 | the constructors agree: an unmarked Deadline made by the three- or four-argument constructor, with any tags, equals the two-argument one |
| Deadlines.GetType | src/main/java/rua/task/Deadline.java:58-61 | the type code is `D` for every Deadline, whatever its fields |
| Deadlines.TypeCodeInDisplay | src/main/java/rua/task/Deadline.java:58-61 | the display string opens with the type code in brackets |
| Deadlines.IsHappeningOnThatDate | src/main/java/rua/task/Deadline.java:69-72 | a Deadline occurs on a date exactly when the date's year, month and day are those of the due date-time; hour and minute are not consulted, and a date outside the years 1 to 9999 never matches |
| Deadlines.OccursIffDatePrefix | src/main/java/rua/task/Deadline.java:69-81 | a Deadline occurs on a date exactly when its rendered due string starts with that date rendered as `MM dd yyyy` |
| Deadlines.OccursIgnoresTimeOfDay | src/main/java/rua/task/Deadline.java:69-72 | two Deadlines due on the same calendar date, at any hour and minute, occur on the same dates |
| Deadlines.GetDue | src/main/java/rua/task/Deadline.java:79-81 | the rendered due string has 16 characters with the pattern's separators at 2, 5, 10 and 13, and reads back as the due date-time |
| Deadlines.GetDueInjective | src/main/java/rua/task/Deadline.java:79-81 | two Deadlines have the same rendered due string exactly when their due date-times are equal |
| Deadlines.Equals | src/main/java/rua/task/Deadline.java:89-104 | a Deadline equals an object exactly when the object is a Deadline that becomes identical to it once its tags are swapped in; never equal to a non-Deadline |
| Deadlines.EqualsIsEquivalence | src/main/java/rua/task/Deadline.java:89-104 | equality between Deadlines is reflexive, symmetric and transitive |
| Deadlines.NotEqualToOther | src/main/java/rua/task/Deadline.java:95-97 | a Deadline never equals an object that is not a Deadline |
| Deadlines.EqualsIgnoresTags | src/main/java/rua/task/Deadline.java:100-103 | replacing the tags of either side never changes the outcome of an equality test |
| Deadlines.ToString | src/main/java/rua/task/Deadline.java:111-116 | the display string is `[D]`, then the base task string (a function of flag, description and tags), then ` (by: `, the rendered due string and `)`; its length is the sum of those parts |
| Deadlines.DisplayDeterminesDue | src/main/java/rua/task/Deadline.java:111-116 | the due date-time can be read back from the display string, just before its closing parenthesis |
| Deadlines.DisplayDistinguishesDue | src/main/java/rua/task/Deadline.java:111-116 | two Deadlines with the same display string have the same due date-time |
| Deadlines.EqualDeadlinesDisplayAlike | src/main/java/rua/task/Deadline.java:100-116 | equal Deadlines, whatever their tags, have display strings that agree outside the base task part; with equal tags they agree entirely |
| EmptyDescription.New | src/main/java/rua/exception/EmptyDescriptionException.java:6-9 | the constructor stores the task-type word unchanged |
| EmptyDescription.ToString | src/main/java/rua/exception/EmptyDescriptionException.java:11-13 | the message is the fixed prefix, the task-type word and the fixed suffix; its length is the sum of the three |
| EmptyDescription.TypeOfMessage | src/main/java/rua/exception/EmptyDescriptionException.java:12 | a string recognised as a message has the length of prefix, recovered word and suffix together |
| EmptyDescription.ReadMessage | src/main/java/rua/exception/EmptyDescriptionException.java:12 | the task-type word can be read back from the message |
| EmptyDescription.MessageOfReadType | src/main/java/rua/exception/EmptyDescriptionException.java:12 | every string with the fixed prefix and suffix is the message of the word between them |
| EmptyDescription.MessageInjective | src/main/java/rua/exception/EmptyDescriptionException.java:12 | distinct task-type words give distinct messages |

## Left out

- The `Task` base class is not part of this model. Its display string is a parameter of `Deadlines.ToString`, and its constructors are not modelled either.
- Deadlines.NewDeadline: promises nothing about the tags of the new task. They are the base class's default, which is not part of this model. The body uses the empty list, but no contract states it.
- Deadlines.NewMarkedDeadline: promises nothing about the tags of the new task, for the same reason.
- Deadlines.ConstructorsAgree: relates the constructors by Deadline equality, which ignores tags, and not by identity of the records, since the default tags are unknown.
- Deadlines.ToString: the base string is modelled as a function of the completion flag, the description and the tags, the three fields handed to the base class. Nothing else about it is known, and it may read the tags. So Deadlines.EqualDeadlinesDisplayAlike promises agreement of the whole display string only for equal tags; for different tags it promises agreement outside the base part.
- Description validation: the Deadline constructors do no check of their own. The rule that a description is never empty is enforced elsewhere (the parser or the base class, neither part of this model). The model therefore accepts any description, the empty one included.
- Seconds and nanoseconds of the due date-time are not modelled. The output pattern drops them, but `isEqual` would compare them. The model's date-times have minute precision, and `isEqual` becomes equality of year, month, day, hour and minute.
- Years outside 1 to 9999 are excluded from due date-times by the `Timestamp` subset type. The pattern letter `y` prints the year of the era. For years 0 and below it prints the same four digits as for years 1, 2 and so on, so the rendering stops being injective. For years from 10000 up it prints more than four digits and a sign. The date given to `Deadlines.IsHappeningOnThatDate` is not restricted: any year, month and day is accepted, and one outside the modelled range never matches.
- Null date-times are not modelled. A null `due` is stored as given by every constructor, and `getDue`, `toString` and `isHappeningOnThatDate` then fail with a null-pointer exception. A null `date` passed to `isHappeningOnThatDate` fails in the same way. The `Timestamp` and `Date` types have no null value, so these failures are absent from the model.
- Deadlines.Equals: the identity shortcut (`o == this`) is not a separate branch. With value semantics, an object identical to this one has the same fields, so the structural comparison gives the same answer.
- Deadlines.Equals: null fields (a null description or completion flag) are not modelled, so neither is the resulting null-pointer failure. Subclasses of Deadline are not modelled; any other object, null included, is `OtherValue`.
- The console loop (`Rua.java`), the JavaFX window (`MainWindow.java`) and `AddCommand.java` are I/O and UI plumbing over classes that are not part of this model (`Parser`, `Storage`, `Ui`, `TaskList`), so they are not modelled.
- A null task-type word (which Java would render as `null` in the message) is not modelled.
