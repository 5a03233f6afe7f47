/**
 * `parse_reminder`: the ordered fallback chain that turns a user's text into
 * a due instant and a message. The language-model step and the general date
 * parser are outside the program; they come in as an already decoded reply
 * and as a function from text to an optional instant.
 */
module Parser {
  import opened Wrappers
  import opened Text
  import opened Timestamp

  // ------------------------------------------------ the regular expression
  // in (\d+) (second|seconds|minute|minutes|hour|hours), case-insensitive.
  // Lower-casing keeps every position, digit and space, so matching the
  // pattern without regard to case is matching its lower-case spelling
  // against the lower-cased text.

  /** The unit group's alternatives, in the order the pattern lists them. */
  const UnitWords: seq<string> := ["second", "seconds", "minute", "minutes", "hour", "hours"]

  predicate AllDigits(d: string) {
    forall k :: 0 <= k < |d| ==> IsDigit(d[k])
  }

  /** The pattern matches the lower-cased text `lt` at `i` with digit group
      `digits` and with the unit group matching its alternative number `a`. */
  predicate MatchesAt(lt: string, i: nat, digits: string, a: nat) {
    && OccursAt(lt, "in ", i)
    && |digits| > 0 && AllDigits(digits)
    && OccursAt(lt, digits, i + 3)
    && OccursAt(lt, " ", i + 3 + |digits|)
    && a < |UnitWords|
    && OccursAt(lt, UnitWords[a], i + 4 + |digits|)
  }

  /** What `re.search` reports: where the match starts, group 1, and which
      alternative of group 2 matched (group 2 itself is the text at the
      matching positions, see UnitGroup). */
  datatype OffsetMatch = OffsetMatch(start: nat, digits: string, alt: nat)

  /** Where group 2 of a match starts. */
  function UnitStart(m: OffsetMatch): nat {
    m.start + 4 + |m.digits|
  }

  /** Length of the run of digits starting at `j`. */
  function DigitRun(s: string, j: nat): (n: nat)
    requires j <= |s|
    ensures j + n <= |s|
    ensures forall k :: j <= k < j + n ==> IsDigit(s[k])
    ensures j + n == |s| || !IsDigit(s[j + n])
    decreases |s| - j
  {
    if j < |s| && IsDigit(s[j]) then 1 + DigitRun(s, j + 1) else 0
  }

  /** The alternative of the unit group that matches in `lt` at `p`: the
      engine tries them in the order the pattern lists them. */
  function UnitAt(lt: string, p: nat): (r: Option<nat>)
    ensures r.Some? ==> r.value < |UnitWords| && OccursAt(lt, UnitWords[r.value], p)
    ensures r.Some? ==> forall b {:trigger OccursAt(lt, UnitWords[b], p)} :: 0 <= b < r.value ==> !OccursAt(lt, UnitWords[b], p)
    ensures r.None? ==> forall b {:trigger OccursAt(lt, UnitWords[b], p)} :: 0 <= b < |UnitWords| ==> !OccursAt(lt, UnitWords[b], p)
  {
    if OccursAt(lt, UnitWords[0], p) then Some(0)
    else if OccursAt(lt, UnitWords[1], p) then Some(1)
    else if OccursAt(lt, UnitWords[2], p) then Some(2)
    else if OccursAt(lt, UnitWords[3], p) then Some(3)
    else if OccursAt(lt, UnitWords[4], p) then Some(4)
    else if OccursAt(lt, UnitWords[5], p) then Some(5)
    else None
  }

  /** The regular expression anchored at `i` of the lower-cased text `lt`
      (the backtracking engine can only succeed with the whole digit run,
      since a shorter one is followed by a digit rather than a space). */
  function MatchAt(lt: string, i: nat): (r: Option<OffsetMatch>)
    ensures r.Some? ==> r.value.start == i
  {
    if !OccursAt(lt, "in ", i) then None
    else
      var j := i + 3;
      var n := DigitRun(lt, j);
      if n == 0 || j + n >= |lt| || lt[j + n] != ' ' then None
      else match UnitAt(lt, j + n + 1)
        case None => None
        case Some(k) => Some(OffsetMatch(i, lt[j..j + n], k))
  }

  /** A match MatchAt reports is a match of the pattern, and its unit is the
      first alternative that fits. */
  lemma MatchAtSound(lt: string, i: nat)
    ensures MatchAt(lt, i).Some? ==> var m := MatchAt(lt, i).value;
      UnitAt(lt, UnitStart(m)) == Some(m.alt) && MatchesAt(lt, i, m.digits, m.alt)
  {
    if MatchAt(lt, i).Some? {
      var n := DigitRun(lt, i + 3);
      assert OccursAt(lt, " ", i + 3 + n);
    }
  }

  /** MatchAt misses nothing the pattern allows at `i`. */
  lemma MatchAtComplete(lt: string, i: nat, digits: string, a: nat)
    requires MatchesAt(lt, i, digits, a)
    ensures MatchAt(lt, i).Some? && MatchAt(lt, i).value.digits == digits
  {
    WholeDigitRun(lt, i + 3, digits);
    assert UnitAt(lt, i + 4 + |digits|).Some?;
  }

  /** A digit group followed by a space is the whole run of digits there. */
  lemma WholeDigitRun(lt: string, j: nat, digits: string)
    requires AllDigits(digits) && OccursAt(lt, digits, j) && OccursAt(lt, " ", j + |digits|)
    ensures DigitRun(lt, j) == |digits|
  {
    forall k | j <= k < j + |digits|
      ensures IsDigit(lt[k])
    {
      assert lt[k] == lt[j..j + |digits|][k - j];
    }
    assert !IsDigit(lt[j + |digits|]);
  }

  /** `re.search` from position `i` on: the leftmost match. */
  function SearchFrom(lt: string, i: nat): (r: Option<OffsetMatch>)
    requires i <= |lt|
    ensures r.Some? ==> i <= r.value.start <= |lt| && MatchAt(lt, r.value.start) == r
    ensures r.Some? ==> forall k :: i <= k < r.value.start ==> MatchAt(lt, k).None?
    ensures r.None? ==> forall k :: i <= k <= |lt| ==> MatchAt(lt, k).None?
    decreases |lt| - i
  {
    var m := MatchAt(lt, i);
    if m.Some? then m
    else if i == |lt| then None
    else SearchFrom(lt, i + 1)
  }

  /** `re.search(pattern, text, re.IGNORECASE)`. */
  function Search(text: string): (r: Option<OffsetMatch>)
    ensures r.Some? ==> Placed(text, r.value)
  {
    var r := SearchFrom(Lower(text), 0);
    if r.Some? then MatchAtSound(Lower(text), r.value.start); r else r
  }

  /** A match found in the text is a match of the pattern on the lower-cased
      text. */
  lemma SearchSound(text: string)
    ensures Search(text).Some? ==> var m := Search(text).value;
      MatchesAt(Lower(text), m.start, m.digits, m.alt)
  {
    if Search(text).Some? {
      MatchAtSound(Lower(text), Search(text).value.start);
    }
  }

  /** The search finds nothing exactly when the pattern matches nowhere in
      the text. */
  lemma NoneIffNoMatch(text: string)
    ensures Search(text).None? <==> forall i: nat, d: string, a: nat :: !MatchesAt(Lower(text), i, d, a)
  {
    var lt := Lower(text);
    if Search(text).Some? {
      SearchSound(text);
    } else {
      forall i: nat, d: string, a: nat | MatchesAt(lt, i, d, a)
        ensures false
      {
        MatchAtComplete(lt, i, d, a);
      }
    }
  }

  /** `m` is a match whose groups lie inside `text`. */
  predicate Placed(text: string, m: OffsetMatch) {
    m.alt < |UnitWords| && AllDigits(m.digits) && UnitStart(m) + |UnitWords[m.alt]| <= |text|
  }

  /** `match.group(2)`: the unit as the text spells it. */
  function UnitGroup(text: string, m: OffsetMatch): string
    requires Placed(text, m)
  {
    text[UnitStart(m)..UnitStart(m) + |UnitWords[m.alt]|]
  }

  /** `int(digits)`. */
  function DecimalValue(digits: string): nat
    requires AllDigits(digits)
  {
    if digits == [] then 0
    else
      assert IsDigit(digits[|digits| - 1]);
      DecimalValue(digits[..|digits| - 1]) * 10 + (digits[|digits| - 1] as int - '0' as int)
  }

  /** The seconds one unit of group 2 stands for, by the `if "second" in
      unit / elif "minute" ... / elif "hour"` chain on the lower-cased group
      (a unit that none of the three tests recognised would add nothing). */
  function UnitSeconds(unit: string): nat {
    LoweredUnitSeconds(Lower(unit))
  }

  function LoweredUnitSeconds(u: string): nat {
    if Contains(u, "second") then 1
    else if Contains(u, "minute") then 60
    else if Contains(u, "hour") then 3600
    else 0
  }

  /** The seconds the alternative number `a` of the unit group denotes
      ("second" and "seconds", "minute" and "minutes", "hour" and "hours"),
      as a reference. */
  function Scale(a: nat): nat {
    if a < 2 then 1 else if a < 4 then 60 else 3600
  }

  /** Each plural alternative of the unit group starts with the singular
      one listed just before it. */
  lemma PluralExtendsSingular(lt: string, p: nat, k: nat)
    requires k == 1 || k == 3 || k == 5
    requires OccursAt(lt, UnitWords[k], p)
    ensures OccursAt(lt, UnitWords[k - 1], p)
  {
    var n := |UnitWords[k - 1]|;
    assert UnitWords[k - 1] == UnitWords[k][..n];
    assert lt[p..p + |UnitWords[k]|][..n] == lt[p..p + n];
  }

  /** The alternative that wins is never a plural one. */
  lemma SingularFirst(lt: string, p: nat)
    ensures UnitAt(lt, p).Some? ==> UnitAt(lt, p).value in {0, 2, 4}
  {
    if OccursAt(lt, UnitWords[1], p) {
      PluralExtendsSingular(lt, p, 1);
    }
    if OccursAt(lt, UnitWords[3], p) {
      PluralExtendsSingular(lt, p, 3);
    }
    if OccursAt(lt, UnitWords[5], p) {
      PluralExtendsSingular(lt, p, 5);
    }
  }

  /** The `if`/`elif` chain read on each singular unit word. */
  lemma LoweredUnitSecondsOfSingular()
    ensures LoweredUnitSeconds("second") == 1
    ensures LoweredUnitSeconds("minute") == 60
    ensures LoweredUnitSeconds("hour") == 3600
  {
    assert OccursAt("second", "second", 0) && OccursAt("minute", "minute", 0) && OccursAt("hour", "hour", 0);
    assert !OccursAt("minute", "second", 0);
  }

  /** The alternative that wins at `p` is a singular word, and its
      `if`/`elif` reading gives the scale of whichever alternative `a` the
      text spells there. */
  lemma {:induction false} WinnerScale(lt: string, p: nat, k: nat, a: nat)
    requires UnitAt(lt, p) == Some(k) && a < |UnitWords| && OccursAt(lt, UnitWords[a], p)
    ensures UnitWords[k] in ["second", "minute", "hour"]
    ensures LoweredUnitSeconds(UnitWords[k]) == Scale(a)
  {
    SingularFirst(lt, p);
    LoweredUnitSecondsOfSingular();
    assert lt[p] == UnitWords[a][0] == UnitWords[k][0];
  }

  /** Group 2, lower-cased, is the alternative that matched. */
  lemma GroupLowered(text: string, m: OffsetMatch)
    requires Placed(text, m) && OccursAt(Lower(text), UnitWords[m.alt], UnitStart(m))
    ensures Lower(UnitGroup(text, m)) == UnitWords[m.alt]
  {
    LowerSlice(text, UnitStart(m), UnitStart(m) + |UnitWords[m.alt]|);
  }

  /** Group 2 is always a singular word: each singular alternative comes
      before, and is a prefix of, its plural. Its `if`/`elif` chain then gives
      the scale of whichever alternative `a` the text spells there. */
  lemma {:induction false} UnitOfMatch(text: string, m: OffsetMatch, a: nat)
    requires Placed(text, m) && UnitAt(Lower(text), UnitStart(m)) == Some(m.alt)
    requires a < |UnitWords| && OccursAt(Lower(text), UnitWords[a], UnitStart(m))
    ensures Lower(UnitGroup(text, m)) in ["second", "minute", "hour"]
    ensures UnitSeconds(UnitGroup(text, m)) == Scale(a)
    ensures Offset(text, m) == DecimalValue(m.digits) * Scale(a)
  {
    GroupLowered(text, m);
    WinnerScale(Lower(text), UnitStart(m), m.alt, a);
  }

  /** `timedelta` of the matched amount, in seconds. */
  function Offset(text: string, m: OffsetMatch): nat
    requires Placed(text, m)
  {
    DecimalValue(m.digits) * UnitSeconds(UnitGroup(text, m))
  }

  // ------------------------------------------------------- the message text

  /** `r` is what follows the first "to" of `text`, which is at `k`, with
      surrounding white space stripped. */
  ghost predicate SplitAfterFirst(text: string, r: string, k: nat) {
    && OccursAt(text, "to", k)
    && (forall j :: 0 <= j < k ==> !OccursAt(text, "to", j))
    && IsStripOf(text[k + 2..], r)
  }

  /** `text.split("to", 1)[-1].strip() if "to" in text else text`: the
      split is case-sensitive and finds "to" inside words too. */
  function Segment(text: string): (r: string)
    ensures !Contains(text, "to") ==> r == text
    ensures Contains(text, "to") ==> exists k :: SplitAfterFirst(text, r, k)
  {
    match Find(text, "to")
    case None => text
    case Some(k) =>
      var r := Strip(text[k + 2..]);
      assert SplitAfterFirst(text, r, k);
      r
  }

  /** Whatever follows the first "to", stripped, is the message: the split
      position and the stripped remainder leave no choice. */
  lemma SegmentUnique(text: string, r: string, k: nat)
    requires SplitAfterFirst(text, r, k)
    ensures Segment(text) == r
  {
    var f := Find(text, "to");
    assert f.Some? && f.value == k;
    StripUnique(text[k + 2..], r);
  }

  // ------------------------------------------------------------ the chain

  /** The language model's reply once decoded: the `time` text it gave and
      its `message`, with `None` for a JSON `null`. A reply that could not be
      obtained or decoded, or lacked either key, is no reply at all. */
  datatype Reply = Reply(time: string, message: Option<string>)

  /** What `parse_reminder` does: returns `(dt, message)`, returns
      `(None, None)`, or lets an exception escape (the offset arithmetic runs
      inside the `except` block, so `OverflowError` past year 9999 is not
      caught). */
  datatype ParseResult = Found(time: Instant, message: Option<string>) | NotFound | Raised

  /** The semantic step succeeds: a reply whose time text the date parser
      understands. */
  predicate SemanticOk(reply: Option<Reply>, dateParse: string -> Option<Instant>) {
    reply.Some? && dateParse(reply.value.time).Some?
  }

  function ParseReminder(text: string, now: Instant, reply: Option<Reply>, dateParse: string -> Option<Instant>): (r: ParseResult)
    // the semantic step wins outright, whatever the text
    ensures SemanticOk(reply, dateParse) ==> r == Found(dateParse(reply.value.time).value, reply.value.message)
    // the general parser is consulted only when the pattern does not occur
    ensures r.Found? && !SemanticOk(reply, dateParse) && Search(text).None? ==> dateParse(text) == Some(r.time) && r.message == Some(text)
    ensures r.Found? && !SemanticOk(reply, dateParse) && Search(text).Some? ==> r.time >= now && r.message == Some(Segment(text))
    // failure is reported only when every strategy fails
    ensures r == NotFound <==> !SemanticOk(reply, dateParse) && Search(text).None? && dateParse(text).None?
    ensures r == Raised <==> !SemanticOk(reply, dateParse) && Search(text).Some? && now + Offset(text, Search(text).value) > MaxInstant
  {
    if SemanticOk(reply, dateParse) then
      Found(dateParse(reply.value.time).value, reply.value.message)
    else match Search(text)
      case Some(m) =>
        var t := now + Offset(text, m);
        if t <= MaxInstant then Found(t, Some(Segment(text))) else Raised
      case None =>
        match dateParse(text)
        case Some(t) => Found(t, Some(text))
        case None => NotFound
  }

  // ------------------------------------------------------------ properties

  /** Offset arithmetic, against the pattern itself: when the semantic step
      fails and the leftmost match of the pattern has digits `digits` and
      its unit group can match alternative `a`, the due time is `now + N * unit` for `N =
      int(digits)`, unless that is past `datetime.max`; the message is the
      "to" segmentation of the text. */
  lemma {:induction false} OffsetArithmetic(text: string, now: Instant, reply: Option<Reply>,
                                            dateParse: string -> Option<Instant>, i: nat, digits: string, a: nat)
    requires !SemanticOk(reply, dateParse)
    requires MatchesAt(Lower(text), i, digits, a)
    requires forall k, d, b :: 0 <= k < i ==> !MatchesAt(Lower(text), k, d, b)
    ensures var r := ParseReminder(text, now, reply, dateParse);
      && (now + DecimalValue(digits) * Scale(a) <= MaxInstant ==> r == Found(now + DecimalValue(digits) * Scale(a), Some(Segment(text))))
      && (now + DecimalValue(digits) * Scale(a) > MaxInstant ==> r == Raised)
  {
    LeftmostMatch(text, i, digits, a);
    UnitOfMatch(text, Search(text).value, a);
    RegexPath(text, now, reply, dateParse);
  }

  /** Once the semantic step fails and the pattern matches, the result is
      fixed by the offset of the match alone. */
  lemma RegexPath(text: string, now: Instant, reply: Option<Reply>, dateParse: string -> Option<Instant>)
    requires !SemanticOk(reply, dateParse) && Search(text).Some?
    ensures var t := now + Offset(text, Search(text).value);
      ParseReminder(text, now, reply, dateParse) == if t <= MaxInstant then Found(t, Some(Segment(text))) else Raised
  {
  }

  /** The search on the text reports the leftmost match of the pattern. */
  lemma LeftmostMatch(text: string, i: nat, digits: string, a: nat)
    requires MatchesAt(Lower(text), i, digits, a)
    requires forall k, d, b :: 0 <= k < i ==> !MatchesAt(Lower(text), k, d, b)
    ensures Search(text).Some? && Search(text).value.digits == digits
    ensures UnitStart(Search(text).value) == i + 4 + |digits|
    ensures UnitAt(Lower(text), UnitStart(Search(text).value)) == Some(Search(text).value.alt)
  {
    var lt := Lower(text);
    SearchFindsLeftmost(lt, i, digits, a);
    MatchAtComplete(lt, i, digits, a);
    MatchAtSound(lt, i);
    assert Search(text) == MatchAt(lt, i);
  }

  /** `re.search` reports the match anchored at the leftmost place the
      pattern matches. */
  lemma {:induction false} SearchFindsLeftmost(lt: string, i: nat, digits: string, a: nat)
    requires MatchesAt(lt, i, digits, a)
    requires forall k, d, b :: 0 <= k < i ==> !MatchesAt(lt, k, d, b)
    ensures MatchAt(lt, i).Some? && SearchFrom(lt, 0) == MatchAt(lt, i)
  {
    MatchAtComplete(lt, i, digits, a);
    NoMatchBefore(lt, i);
    LeftmostIs(lt, i);
  }

  /** Where the pattern does not match, MatchAt reports nothing. */
  lemma NoMatchBefore(lt: string, i: nat)
    requires forall k, d, b :: 0 <= k < i ==> !MatchesAt(lt, k, d, b)
    ensures forall k :: 0 <= k < i ==> MatchAt(lt, k).None?
  {
    forall k | 0 <= k < i
      ensures MatchAt(lt, k).None?
    {
      MatchAtSound(lt, k);
    }
  }

  /** The search stops at the first position where MatchAt succeeds. */
  lemma LeftmostIs(lt: string, i: nat)
    requires MatchAt(lt, i).Some?
    requires forall k :: 0 <= k < i ==> MatchAt(lt, k).None?
    ensures i <= |lt| && SearchFrom(lt, 0) == MatchAt(lt, i)
  {
    assert OccursAt(lt, "in ", i);
  }

  /** The regular-expression fallback is tried before the general parser:
      when the pattern occurs, what the general parser would make of the text
      does not matter. */
  lemma RegexBeforeGeneral(text: string, now: Instant, reply: Option<Reply>,
                           dp1: string -> Option<Instant>, dp2: string -> Option<Instant>)
    requires reply.Some? ==> dp1(reply.value.time) == dp2(reply.value.time)
    requires Search(text).Some?
    ensures ParseReminder(text, now, reply, dp1) == ParseReminder(text, now, reply, dp2)
  {
  }

  /** The message is whatever follows the first "to", stripped: when `u`
      holds no "to", the text `u + "to" + w` has message `w.strip()`. With `w` empty, or all white space, the message
      is empty; with `w` the rest of a word such as "morrow", the split has
      happened inside "tomorrow". */
  lemma {:induction false} SegmentAfterFirstTo(u: string, w: string)
    requires !Contains(u, "to")
    ensures Segment(u + "to" + w) == Strip(w)
  {
    var text := u + "to" + w;
    ContainsIff(u, "to");
    forall k | 0 <= k < |u|
      ensures !OccursAt(text, "to", k)
    {
      if k + 2 <= |u| {
        assert text[k..k + 2] == u[k..k + 2];
        assert !OccursAt(u, "to", k);
      } else {
        // "to" cannot start at the last character of `u`, since the next
        // character is the 't' of the separator
        assert text[k..k + 2] != "to" by {
          assert text[k..k + 2][1] == text[k + 1] == 't';
        }
      }
    }
    assert OccursAt(text, "to", |u|);
    assert text[|u| + 2..] == w;
  }
}
