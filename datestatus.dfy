/**
  * Due dates, their display text and their classification against the current day
  * (checkTaskStatus and formatDate in Assets/JS/utils.js, repeated in Scripts/JS/script.js).
  *
  * A calendar day is a day number; the clock is the parameter `today`. The locale
  * rendering of a day is modelled by its decimal digits, and a text parses to a day
  * exactly when it is a non-empty run of digits; any other text is an Invalid Date.
  */
module DateStatus {
  import opened Wrappers

  /** What a task's due-date text stands for. */
  datatype Due = NoDate | Day(day: nat) | Unparsable

  /** The three answers of checkTaskStatus. */
  datatype Status = Today | Overdue | Future

  /** The prefix the task list writes in front of a formatted due date. */
  const DuePrefix: string := "Due: "

  /** What toLocaleDateString renders for a date that failed to parse. */
  const InvalidDateText: string := "Invalid Date"

  predicate IsDigit(c: char) { '0' <= c <= '9' }

  predicate AllDigits(s: string) {
    forall i :: 0 <= i < |s| ==> IsDigit(s[i])
  }

  function DigitChar(d: nat): (c: char)
    requires d < 10
    ensures IsDigit(c) && c as int - '0' as int == d
  {
    (48 + d) as char
  }

  /** The rendering of a day number: a non-empty run of digits. */
  function Digits(n: nat): (s: string)
    ensures |s| >= 1 && AllDigits(s)
  {
    if n < 10 then [DigitChar(n)] else Digits(n / 10) + [DigitChar(n % 10)]
  }

  /** The value of a run of digits. */
  function DecimalValue(s: string): nat
    requires AllDigits(s)
  {
    if s == [] then 0 else DecimalValue(s[..|s| - 1]) * 10 + (s[|s| - 1] as int - '0' as int)
  }

  /** Reading back the rendering of a day gives that day. */
  lemma {:induction false} DecimalValueOfDigits(n: nat)
    ensures DecimalValue(Digits(n)) == n
  {
    if n >= 10 {
      DecimalValueOfDigits(n / 10);
      var s := Digits(n);
      assert s[..|s| - 1] == Digits(n / 10);
    }
  }

  /** `new Date(s)`: a valid day or an Invalid Date. */
  function ParseDate(s: string): Option<nat> {
    if s != "" && AllDigits(s) then Some(DecimalValue(s)) else None
  }

  /** formatDate (Assets/JS/utils.js): the rendering of whatever `new Date(s)` made of `s`. */
  function FormatDate(s: string): (r: string)
    ensures ParseDate(s).Some? ==> ParseDate(r) == ParseDate(s)
    ensures ParseDate(s).None? ==> r == InvalidDateText
  {
    match ParseDate(s)
    case Some(n) => DecimalValueOfDigits(n); Digits(n)
    case None => InvalidDateText
  }

  /**
    * The due date a task element gets from the text it is created with
    * (`dueDate ? ... : ""` in createTaskElement): no date for the empty text,
    * otherwise whatever the text parses to.
    */
  function DueOfText(s: string): (d: Due)
    ensures d == NoDate <==> s == ""
    ensures d.Day? <==> ParseDate(s).Some?
    ensures d.Day? ==> ParseDate(s) == Some(d.day)
  {
    if s == "" then NoDate
    else match ParseDate(s)
      case Some(n) => Day(n)
      case None => Unparsable
  }

  /** The text of a task's `.due-date` span. */
  function Label(d: Due): string {
    match d
    case NoDate => ""
    case Day(n) => DuePrefix + Digits(n)
    case Unparsable => DuePrefix + InvalidDateText
  }

  /**
    * The span text written for a due-date text `s`: empty when `s` is empty,
    * otherwise "Due: " followed by the formatted date.
    */
  lemma LabelOfText(s: string)
    ensures Label(DueOfText(s)) == if s == "" then "" else DuePrefix + FormatDate(s)
  {
  }

  /** `s.replace(pattern, "")`: JavaScript removes the first occurrence only. */
  function RemoveFirst(s: string, pattern: string): (r: string)
    ensures |r| == |s| || |r| == |s| - |pattern|
  {
    if |s| < |pattern| then s
    else if s[..|pattern|] == pattern then s[|pattern|..]
    else [s[0]] + RemoveFirst(s[1..], pattern)
  }

  /** `pattern` occurs in `s` at index `k`. */
  predicate OccursAt(s: string, pattern: string, k: int) {
    0 <= k && k + |pattern| <= |s| && s[k..k + |pattern|] == pattern
  }

  /** Where `pattern` does not occur, replace leaves the text as it is. */
  lemma {:induction false} RemoveFirstAbsent(s: string, pattern: string)
    requires forall k :: 0 <= k <= |s| ==> !OccursAt(s, pattern, k)
    ensures RemoveFirst(s, pattern) == s
  {
    if |s| >= |pattern| {
      assert !OccursAt(s, pattern, 0);
      forall k | 0 <= k <= |s| - 1 ensures !OccursAt(s[1..], pattern, k) {
        assert !OccursAt(s, pattern, k + 1);
        if k + |pattern| <= |s| - 1 {
          assert s[1..][k..k + |pattern|] == s[k + 1..k + 1 + |pattern|];
        }
      }
      RemoveFirstAbsent(s[1..], pattern);
    }
  }

  /** Where `pattern` first occurs at `k`, replace cuts out exactly that occurrence. */
  lemma {:induction false} RemoveFirstAt(s: string, pattern: string, k: nat)
    requires OccursAt(s, pattern, k)
    requires forall m :: 0 <= m < k ==> !OccursAt(s, pattern, m)
    ensures RemoveFirst(s, pattern) == s[..k] + s[k + |pattern|..]
  {
    if k == 0 {
      assert s[..|pattern|] == pattern;
    } else {
      assert !OccursAt(s, pattern, 0);
      var t := s[1..];
      assert t[k - 1..k - 1 + |pattern|] == s[k..k + |pattern|];
      forall m | 0 <= m < k - 1 ensures !OccursAt(t, pattern, m) {
        assert !OccursAt(s, pattern, m + 1);
        assert t[m..m + |pattern|] == s[m + 1..m + 1 + |pattern|];
      }
      RemoveFirstAt(t, pattern, k - 1);
      assert [s[0]] + t[..k - 1] == s[..k];
      assert t[k - 1 + |pattern|..] == s[k + |pattern|..];
    }
  }

  /** `text.replace("Due: ", "")`, as saveTasks, removeTask and filterTasks apply it. */
  function StripDuePrefix(s: string): string {
    RemoveFirst(s, DuePrefix)
  }

  /** The date text that saveTasks and removeTask store for a due date. */
  function DueDateText(d: Due): string {
    StripDuePrefix(Label(d))
  }

  /**
    * Stripping the prefix off a due-date span and creating a task from what is left
    * gives back the same due date, for a valid, a missing and an invalid date alike.
    */
  lemma {:induction false} DueDateTextRoundTrip(d: Due)
    ensures DueOfText(DueDateText(d)) == d
  {
    match d
    case NoDate =>
    case Day(n) =>
      assert Label(d)[..|DuePrefix|] == DuePrefix;
      assert DueDateText(d) == Digits(n);
      DecimalValueOfDigits(n);
    case Unparsable =>
      assert Label(d)[..|DuePrefix|] == DuePrefix;
      assert DueDateText(d) == InvalidDateText;
      assert !IsDigit(InvalidDateText[0]);
  }

  /**
    * checkTaskStatus with the clock as a parameter: "today" when the due day is the
    * current day, "overdue" when strictly earlier, "future" otherwise. A missing or
    * invalid date is never "today" nor "overdue".
    */
  function CheckTaskStatus(due: Due, today: nat): (s: Status)
    ensures s == Today <==> due == Day(today)
    ensures s == Overdue <==> due.Day? && due.day < today
    ensures s == Future <==> !due.Day? || due.day > today
  {
    match due
    case Day(n) => if n == today then Today else if n < today then Overdue else Future
    case _ => Future
  }
}
