/**
 * The opening-hours grouper: `normalizeHours` turns one day's hours text
 * into a canonical label, `isConsecutiveArray` decides whether a run of day
 * indices collapses to a range, and `formatDaysOfWeekHours` groups the
 * comma-separated week by label.
 */
module OpeningHours {
  import opened Wrappers
  import opened JsText

  // -------------------------------------------------------------------------
  // normalizeHours

  /** The capture groups of `/^(\d{1,2})(?::(\d{2}))?(am|pm)$/`. */
  datatype TimeParts = TimeParts(hour: string, minute: Option<string>, period: string)

  predicate IsPeriod(s: string)
  {
    s == "am" || s == "pm"
  }

  /** Capture groups the pattern can produce. */
  predicate ValidParts(p: TimeParts)
  {
    1 <= |p.hour| <= 2 && AllDigits(p.hour)
    && (p.minute.Some? ==> |p.minute.value| == 2 && AllDigits(p.minute.value))
    && IsPeriod(p.period)
  }

  /** The text a match with these groups spans. */
  function Render(p: TimeParts): string
  {
    p.hour + (match p.minute case Some(m) => ":" + m case None => "") + p.period
  }

  /** `t.match(/^(\d{1,2})(?::(\d{2}))?(am|pm)$/)`. The hour takes as many
      digits as it can, since after it only `:` or a letter may follow. */
  function MatchTime(t: string): (r: Option<TimeParts>)
    ensures r.Some? ==> ValidParts(r.value)
  {
    var h := if |t| >= 2 && IsAsciiDigit(t[0]) && IsAsciiDigit(t[1]) then 2
             else if |t| >= 1 && IsAsciiDigit(t[0]) then 1
             else 0;
    if h == 0 then None
    else
      var rest := t[h..];
      if |rest| == 5 && rest[0] == ':' && IsAsciiDigit(rest[1]) && IsAsciiDigit(rest[2]) && IsPeriod(rest[3..]) then
        Some(TimeParts(t[..h], Some(rest[1..3]), rest[3..]))
      else if IsPeriod(rest) then
        Some(TimeParts(t[..h], None, rest))
      else None
  }

  /** Every match is made of valid groups and spans the whole token. */
  lemma MatchSound(t: string)
    requires MatchTime(t).Some?
    ensures ValidParts(MatchTime(t).value) && Render(MatchTime(t).value) == t
  {
    MatchSpans(t);
  }

  lemma MatchSpans(t: string)
    requires MatchTime(t).Some?
    ensures Render(MatchTime(t).value) == t
  {
    var p := MatchTime(t).value;
    var h := |p.hour|;
    assert p.hour == t[..h];
    var rest := t[h..];
    assert t == p.hour + rest;
    if p.minute.Some? {
      assert p.minute.value == rest[1..3] && p.period == rest[3..] && rest[0] == ':';
      assert rest == [':'] + rest[1..3] + rest[3..];
    } else {
      assert p.period == rest;
    }
  }

  /** Every string of the pattern's language matches, with these groups. */
  lemma MatchComplete(p: TimeParts)
    requires ValidParts(p)
    ensures MatchTime(Render(p)) == Some(p)
  {
    var t := Render(p);
    var h := |p.hour|;
    assert t[..h] == p.hour;
    if h == 1 {
      assert !IsAsciiDigit(t[1]);
    }
    if p.minute.Some? {
      assert t[h..] == ":" + p.minute.value + p.period;
      assert t[h..][3..] == p.period;
      assert t[h..][1..3] == p.minute.value;
    } else {
      assert t[h..] == p.period;
    }
  }

  /** The map step: a matching token becomes `hour:MM` plus the period,
      minutes defaulting to `00`; anything else passes through. */
  function NormalizeToken(t: string): string
  {
    match MatchTime(t)
    case None => t
    case Some(p) => p.hour + ":" + p.minute.GetOr("00") + p.period
  }

  /** A normalized token is its own normalization, and keeps the hour and
      period of the token it came from. */
  lemma NormalizeTokenIdempotent(t: string)
    ensures NormalizeToken(NormalizeToken(t)) == NormalizeToken(t)
    ensures MatchTime(t).Some? ==>
      MatchTime(NormalizeToken(t)) == Some(TimeParts(MatchTime(t).value.hour, Some(MatchTime(t).value.minute.GetOr("00")), MatchTime(t).value.period))
  {
    if MatchTime(t).Some? {
      var p := MatchTime(t).value;
      MatchSound(t);
      var q := TimeParts(p.hour, Some(p.minute.GetOr("00")), p.period);
      assert Render(q) == NormalizeToken(t);
      MatchComplete(q);
    }
  }

  function NormalizeTokens(ts: seq<string>): seq<string>
  {
    seq(|ts|, i requires 0 <= i < |ts| => NormalizeToken(ts[i]))
  }

  /** `normalizeHours(hours)`: lowercase, delete all whitespace, split on
      `-`, normalize each piece, join with `" - "`. */
  function NormalizeHours(hours: string): (normalized: string)
    ensures IsLower(normalized)
  {
    var us := NormalizeTokens(Split(RemoveWhitespace(Lower(hours)), '-'));
    LabelPiecesPlain(hours);
    Separator();
    JoinIsLower(us, " - ");
    Join(us, " - ")
  }

  /** A piece the label is built from: lower case, no whitespace, no `-`. */
  predicate PlainPiece(t: string)
  {
    IsLower(t) && NoWhitespace(t) && '-' !in t
  }

  lemma {:induction false} RemoveWhitespaceKeepsLower(s: string)
    requires IsLower(s)
    ensures IsLower(RemoveWhitespace(s))
  {
    if s != [] {
      RemoveWhitespaceKeepsLower(s[1..]);
    }
  }

  /** The characters a normalized time is written with. */
  predicate IsTimeChar(c: char)
  {
    IsAsciiDigit(c) || c == ':' || c == 'a' || c == 'p' || c == 'm'
  }

  predicate TimeChars(s: string)
  {
    forall i :: 0 <= i < |s| ==> IsTimeChar(s[i])
  }

  lemma TimeCharsConcat(a: string, b: string)
    requires TimeChars(a) && TimeChars(b)
    ensures TimeChars(a + b)
  {
    forall i | 0 <= i < |a + b| ensures IsTimeChar((a + b)[i]) {
      if i < |a| {
        assert (a + b)[i] == a[i];
      } else {
        assert (a + b)[i] == b[i - |a|];
      }
    }
  }

  lemma TimeTokenPlain(p: TimeParts)
    requires ValidParts(p)
    ensures PlainPiece(p.hour + ":" + p.minute.GetOr("00") + p.period)
  {
    var m := p.minute.GetOr("00");
    assert TimeChars(p.hour) && TimeChars(":") && TimeChars(m) && TimeChars(p.period);
    TimeCharsConcat(p.hour, ":");
    TimeCharsConcat(p.hour + ":", m);
    TimeCharsConcat(p.hour + ":" + m, p.period);
  }

  lemma NormalizeTokenPlain(t: string)
    requires PlainPiece(t)
    ensures PlainPiece(NormalizeToken(t))
  {
    if MatchTime(t).Some? {
      MatchSound(t);
      TimeTokenPlain(MatchTime(t).value);
    }
  }

  /** Normalizing a label again changes nothing: the label of a label is
      the label. */
  lemma NormalizeHoursIdempotent(hours: string)
    ensures NormalizeHours(NormalizeHours(hours)) == NormalizeHours(hours)
  {
    var ts := Split(RemoveWhitespace(Lower(hours)), '-');
    var us := NormalizeTokens(ts);
    LabelPiecesPlain(hours);
    NormalizeJoined(us);
    NormalizeTokensIdempotent(ts);
  }

  lemma NormalizeTokensIdempotent(ts: seq<string>)
    ensures NormalizeTokens(NormalizeTokens(ts)) == NormalizeTokens(ts)
  {
    var us := NormalizeTokens(ts);
    forall i | 0 <= i < |us| ensures NormalizeToken(us[i]) == us[i] {
      NormalizeTokenIdempotent(ts[i]);
    }
  }

  /** The normalized pieces of any text are plain. */
  lemma LabelPiecesPlain(hours: string)
    ensures forall i :: 0 <= i < |NormalizeTokens(Split(RemoveWhitespace(Lower(hours)), '-'))| ==>
      PlainPiece(NormalizeTokens(Split(RemoveWhitespace(Lower(hours)), '-'))[i])
  {
    var squeezed := RemoveWhitespace(Lower(hours));
    var ts := Split(squeezed, '-');
    RemoveWhitespaceKeepsLower(Lower(hours));
    SplitChars(squeezed, '-');
    forall i | 0 <= i < |ts| ensures PlainPiece(NormalizeToken(ts[i])) {
      forall k | 0 <= k < |ts[i]| ensures !IsAsciiUpper(ts[i][k]) && !IsJsWhitespace(ts[i][k]) {
        assert ts[i][k] in squeezed;
      }
      NormalizeTokenPlain(ts[i]);
    }
  }

  /** Plain pieces joined with `" - "` come apart again into the same pieces,
      each normalized. */
  lemma NormalizeJoined(us: seq<string>)
    requires |us| >= 1
    requires forall i :: 0 <= i < |us| ==> PlainPiece(us[i])
    ensures NormalizeHours(Join(us, " - ")) == Join(NormalizeTokens(us), " - ")
  {
    SqueezeJoined(us);
    SplitJoin(us, '-');
  }

  lemma SqueezeJoined(us: seq<string>)
    requires forall i :: 0 <= i < |us| ==> PlainPiece(us[i])
    ensures RemoveWhitespace(Lower(Join(us, " - "))) == Join(us, ['-'])
  {
    Separator();
    LowerJoin(us, " - ");
    RemoveWhitespaceJoin(us, " - ");
    PlainPiecesUnchanged(us);
  }

  /** The label separator `" - "` is lower case and squeezes to `-`. */
  lemma Separator()
    ensures IsLower(" - ") && RemoveWhitespace(" - ") == ['-']
  {
    assert RemoveWhitespace(" - ") == RemoveWhitespace("- ");
    assert RemoveWhitespace("- ") == ['-'] + RemoveWhitespace(" ");
  }

  lemma PlainPiecesUnchanged(us: seq<string>)
    requires forall i :: 0 <= i < |us| ==> PlainPiece(us[i])
    ensures seq(|us|, i requires 0 <= i < |us| => RemoveWhitespace(us[i])) == us
  {
    var m := seq(|us|, i requires 0 <= i < |us| => RemoveWhitespace(us[i]));
    forall i | 0 <= i < |us| ensures m[i] == us[i] {
      assert NoWhitespace(us[i]);
    }
  }

  /** Case and spacing do not change the label: the label of a text is the
      label of its lower-cased, whitespace-free form. */
  lemma NormalizeHoursIgnoresCaseAndSpacing(hours: string)
    ensures NormalizeHours(hours) == NormalizeHours(RemoveWhitespace(Lower(hours)))
  {
    var squeezed := RemoveWhitespace(Lower(hours));
    RemoveWhitespaceKeepsLower(Lower(hours));
    LowerOfLower(squeezed);
  }

  /** A time without minutes gets `:00`; a time with minutes keeps them; a
      token the pattern rejects is left as it is. */
  lemma NormalizeTokenCases(p: TimeParts, t: string)
    requires ValidParts(p)
    requires MatchTime(t).None?
    ensures p.minute.None? ==> NormalizeToken(Render(p)) == p.hour + ":00" + p.period
    ensures p.minute.Some? ==> NormalizeToken(Render(p)) == Render(p)
    ensures NormalizeToken(t) == t
  {
    if p.minute.Some? {
      NormalizeTokenKeepsMinutes(p);
    } else {
      NormalizeTokenPadsMinutes(p);
    }
  }

  lemma NormalizeTokenOfMatch(t: string, p: TimeParts)
    requires MatchTime(t) == Some(p)
    ensures NormalizeToken(t) == p.hour + ":" + p.minute.GetOr("00") + p.period
  {
  }

  lemma NormalizeTokenPadsMinutes(p: TimeParts)
    requires ValidParts(p) && p.minute.None?
    ensures NormalizeToken(Render(p)) == p.hour + ":00" + p.period
  {
    MatchComplete(p);
    NormalizeTokenOfMatch(Render(p), p);
    assert p.hour + ":" + "00" == p.hour + ":00";
  }

  lemma NormalizeTokenKeepsMinutes(p: TimeParts)
    requires ValidParts(p) && p.minute.Some?
    ensures NormalizeToken(Render(p)) == Render(p)
  {
    var m := p.minute.value;
    MatchComplete(p);
    NormalizeTokenOfMatch(Render(p), p);
    assert p.hour + ":" + m == p.hour + (":" + m);
  }

  /** The pieces of "9 AM - 5 PM" normalize to "9:00am" and "5:00pm". */
  lemma NormalizeTokensExample()
    ensures NormalizeTokens(["9am", "5pm"]) == ["9:00am", "5:00pm"]
  {
    var nine, five := TimeParts("9", None, "am"), TimeParts("5", None, "pm");
    assert Render(nine) == "9am" && Render(five) == "5pm";
    NormalizeTokenCases(nine, "");
    NormalizeTokenCases(five, "");
    assert "9" + ":00" + "am" == "9:00am" && "5" + ":00" + "pm" == "5:00pm";
    assert NormalizeToken("9am") == "9:00am" && NormalizeToken("5pm") == "5:00pm";
  }

  // -------------------------------------------------------------------------
  // isConsecutiveArray

  /** `isConsecutiveArray(arr)`: at least three entries, and the last is as
      far from the first as the length allows. */
  function IsConsecutiveArray(arr: seq<int>): (r: bool)
    ensures r ==> |arr| >= 3
    ensures |arr| >= 3 && (forall j :: 0 <= j < |arr| ==> arr[j] == arr[0] + j) ==> r
  {
    if |arr| <= 2 then false else arr[|arr| - 1] - arr[0] + 1 == |arr|
  }

  predicate StrictlyIncreasing(arr: seq<int>)
  {
    forall k :: 0 <= k < |arr| - 1 ==> arr[k] < arr[k + 1]
  }

  lemma {:induction false} IncreasingGap(arr: seq<int>, i: nat, j: nat)
    requires StrictlyIncreasing(arr) && i <= j < |arr|
    ensures arr[j] - arr[i] >= j - i
    decreases j - i
  {
    if i < j {
      IncreasingGap(arr, i, j - 1);
    }
  }

  /** On strictly increasing day indices the test means exactly: a run of
      three or more days without a gap. */
  lemma ConsecutiveIsGapFreeRun(arr: seq<int>)
    requires StrictlyIncreasing(arr)
    ensures IsConsecutiveArray(arr) <==> |arr| >= 3 && forall j :: 0 <= j < |arr| ==> arr[j] == arr[0] + j
  {
    if IsConsecutiveArray(arr) {
      forall j | 0 <= j < |arr| ensures arr[j] == arr[0] + j {
        IncreasingGap(arr, 0, j);
        IncreasingGap(arr, j, |arr| - 1);
      }
    }
  }

  // -------------------------------------------------------------------------
  // formatDaysOfWeekHours

  const DayNames: seq<string> := ["Sunday", "Monday", "Tuesday", "Wednesday", "Thursday", "Friday", "Saturday"]

  /** `dayNames[i]`: None is `undefined`, past Saturday. */
  function DayName(i: int): Option<string>
  {
    if 0 <= i < 7 then Some(DayNames[i]) else None
  }

  /** `${dayNames[i]}` inside a template literal. */
  function DayText(i: int): string
  {
    if 0 <= i < 7 then DayNames[i] else "undefined"
  }

  /** What one label's day list becomes: a single "First - Last" range when
      the indices are consecutive, otherwise each day's name in order. */
  function GroupDays(days: seq<int>): seq<Option<string>>
  {
    if IsConsecutiveArray(days) then [Some(DayText(days[0]) + " - " + DayText(days[|days| - 1]))]
    else seq(|days|, j requires 0 <= j < |days| => DayName(days[j]))
  }

  /** The label of each entry, in order. */
  function LabelsOf(entries: seq<string>, labelOf: string -> string): seq<string>
  {
    seq(|entries|, i requires 0 <= i < |entries| => labelOf(entries[i]))
  }

  /** The label of each comma-separated entry of the week, in order. */
  function Labels(hoursString: string): seq<string>
  {
    LabelsOf(Split(hoursString, ','), NormalizeHours)
  }

  /** The distinct labels, in the order they first occur. */
  function FirstSeen(labels: seq<string>): seq<string>
  {
    if labels == [] then []
    else
      var earlier := FirstSeen(labels[..|labels| - 1]);
      if labels[|labels| - 1] in earlier then earlier else earlier + [labels[|labels| - 1]]
  }

  /** The indices carrying `key`, ascending. */
  function IndicesOf(labels: seq<string>, key: string): seq<int>
  {
    if labels == [] then []
    else IndicesOf(labels[..|labels| - 1], key) + (if labels[|labels| - 1] == key then [|labels| - 1] else [])
  }

  predicate Distinct(ks: seq<string>)
  {
    forall i, j :: 0 <= i < j < |ks| ==> ks[i] != ks[j]
  }

  /** The keys are the labels, each once. */
  lemma {:induction false} FirstSeenKeys(labels: seq<string>)
    ensures Distinct(FirstSeen(labels))
    ensures forall k :: k in FirstSeen(labels) <==> k in labels
  {
    if labels != [] {
      var init := labels[..|labels| - 1];
      FirstSeenKeys(init);
      assert labels == init + [labels[|labels| - 1]];
    }
  }

  /** A key's day list holds exactly the indices carrying it, ascending. */
  lemma {:induction false} IndicesOfExact(labels: seq<string>, key: string)
    ensures StrictlyIncreasing(IndicesOf(labels, key))
    ensures forall i :: i in IndicesOf(labels, key) <==> 0 <= i < |labels| && labels[i] == key
    ensures forall m :: 0 <= m < |IndicesOf(labels, key)| ==> 0 <= IndicesOf(labels, key)[m] < |labels|
  {
    if labels != [] {
      var init := labels[..|labels| - 1];
      IndicesOfExact(init, key);
    }
  }

  /** Every entry lands in exactly one group: the one of its own label. */
  lemma EachDayInOneGroup(labels: seq<string>, i: int)
    requires 0 <= i < |labels|
    ensures labels[i] in FirstSeen(labels)
    ensures forall k :: k in FirstSeen(labels) ==> (i in IndicesOf(labels, k) <==> k == labels[i])
  {
    FirstSeenKeys(labels);
    forall k | k in FirstSeen(labels) ensures i in IndicesOf(labels, k) <==> k == labels[i] {
      IndicesOfExact(labels, k);
    }
  }

  lemma FirstSeenStep(labels: seq<string>, n: nat)
    requires n < |labels|
    ensures FirstSeen(labels[..n + 1]) ==
      if labels[n] in FirstSeen(labels[..n]) then FirstSeen(labels[..n]) else FirstSeen(labels[..n]) + [labels[n]]
  {
    assert labels[..n + 1][..n] == labels[..n];
  }

  lemma IndicesOfStep(labels: seq<string>, n: nat, key: string)
    requires n < |labels|
    ensures IndicesOf(labels[..n + 1], key) == IndicesOf(labels[..n], key) + (if labels[n] == key then [n] else [])
  {
    assert labels[..n + 1][..n] == labels[..n];
  }

  lemma IndicesOfAbsent(labels: seq<string>, key: string)
    requires key !in FirstSeen(labels)
    ensures IndicesOf(labels, key) == []
  {
    FirstSeenKeys(labels);
    IndicesOfExact(labels, key);
  }

  /** An entry of the dictionary while it is being built and after. */
  datatype Group = Indices(days: seq<int>) | Names(names: seq<Option<string>>)

  /** The first loop's step: the label of entry `n` joins the key order if
      it is new, and `n` is appended to its list, which extends every list
      from the first `n` labels to the first `n + 1`. */
  lemma IndexStep(order: seq<string>, dict: map<string, Group>, labels: seq<string>, n: nat,
                  order': seq<string>, dict': map<string, Group>)
    requires n < |labels|
    requires order == FirstSeen(labels[..n])
    requires forall k :: k in dict <==> k in order
    requires forall k :: k in dict ==> dict[k] == Indices(IndicesOf(labels[..n], k))
    requires order' == if labels[n] in dict then order else order + [labels[n]]
    requires dict' == dict[labels[n] := Indices((if labels[n] in dict then dict[labels[n]].days else []) + [n])]
    ensures order' == FirstSeen(labels[..n + 1])
    ensures forall k :: k in dict' <==> k in order'
    ensures forall k :: k in dict' ==> dict'[k] == Indices(IndicesOf(labels[..n + 1], k))
  {
    var key := labels[n];
    FirstSeenStep(labels, n);
    if key !in dict {
      IndicesOfAbsent(labels[..n], key);
    }
    forall k | k in dict' ensures dict'[k] == Indices(IndicesOf(labels[..n + 1], k)) {
      IndicesOfStep(labels, n, k);
    }
  }

  /** `formatDaysOfWeekHours(hoursString)`. The object's key order is kept
      in `order` (first seen first); `dict` is `hoursDict`. */
  method FormatDaysOfWeekHours(hoursString: string) returns (order: seq<string>, dict: map<string, Group>)
    ensures order == FirstSeen(Labels(hoursString))
    ensures forall k :: k in dict <==> k in order
    ensures forall k :: k in dict ==> dict[k] == Names(GroupDays(IndicesOf(Labels(hoursString), k)))
  {
    var indexed;
    order, indexed := IndexByLabel(Split(hoursString, ','), NormalizeHours);
    FirstSeenKeys(Labels(hoursString));
    dict := CollapseGroups(order, indexed);
  }

  /** The first loop: each entry's index appended to the list of its label,
      a label entering the dictionary (and the key order) when first seen.
      `labelOf` is `normalizeHours`. */
  method IndexByLabel(entries: seq<string>, labelOf: string -> string) returns (order: seq<string>, dict: map<string, Group>)
    ensures order == FirstSeen(LabelsOf(entries, labelOf))
    ensures forall k :: k in dict <==> k in order
    ensures forall k :: k in dict ==> dict[k] == Indices(IndicesOf(LabelsOf(entries, labelOf), k))
  {
    ghost var labels := LabelsOf(entries, labelOf);
    order, dict := [], map[];
    var index := 0;
    while index < |entries|
      invariant 0 <= index <= |entries|
      invariant order == FirstSeen(labels[..index])
      invariant forall k :: k in dict <==> k in order
      invariant forall k :: k in dict ==> dict[k] == Indices(IndicesOf(labels[..index], k))
    {
      var key := labelOf(entries[index]);
      ghost var order0, dict0 := order, dict;
      var days := [];
      if key in dict {
        days := dict[key].days;
      } else {
        order := order + [key];
      }
      dict := dict[key := Indices(days + [index])];
      IndexStep(order0, dict0, labels, index, order, dict);
      index := index + 1;
    }
    assert labels[..index] == labels;
  }

  /** The second loop: every key's index list replaced by its day names, in
      key order; no key is added or lost. */
  method CollapseGroups(order: seq<string>, indexed: map<string, Group>) returns (dict: map<string, Group>)
    requires Distinct(order)
    requires forall k :: k in indexed <==> k in order
    requires forall k :: k in indexed ==> indexed[k].Indices?
    ensures forall k :: k in dict <==> k in order
    ensures forall k :: k in dict ==> dict[k] == Names(GroupDays(indexed[k].days))
  {
    dict := indexed;
    var j := 0;
    while j < |order|
      invariant 0 <= j <= |order|
      invariant forall k :: k in dict <==> k in order
      invariant forall m :: 0 <= m < j ==> dict[order[m]] == Names(GroupDays(indexed[order[m]].days))
      invariant forall m :: j <= m < |order| ==> dict[order[m]] == indexed[order[m]]
    {
      var key := order[j];
      ghost var before := dict;
      dict := dict[key := Names(GroupDays(dict[key].days))];
      forall m | 0 <= m < |order| && m != j ensures dict[order[m]] == before[order[m]] {
        assert order[m] != key;
      }
      j := j + 1;
    }
    forall k | k in dict ensures dict[k] == Names(GroupDays(indexed[k].days)) {
      var m :| 0 <= m < |order| && order[m] == k;
    }
  }

  /** `n` entries carrying the same label. */
  function Repeat(x: string, n: nat): seq<string>
  {
    seq(n, _ => x)
  }

  /** The day indices `lo`, ..., `hi - 1`. */
  function Range(lo: int, hi: int): seq<int>
    requires lo <= hi
  {
    seq(hi - lo, i => lo + i)
  }

  /** A run of equal labels forms one group holding every index. */
  lemma {:induction false} RunOf(b: string, n: nat)
    requires n >= 1
    ensures FirstSeen(Repeat(b, n)) == [b]
    ensures IndicesOf(Repeat(b, n), b) == Range(0, n)
  {
    var ls := Repeat(b, n);
    assert ls[..n - 1] == Repeat(b, n - 1);
    if n > 1 {
      RunOf(b, n - 1);
    }
  }

  /** A run of `b` followed by a run of `a` forms the group of `b`, then the
      group of `a`, each holding the indices of its own run. */
  lemma TwoRuns(b: string, a: string, n: nat, m: nat)
    requires n >= 1 && a != b
    ensures FirstSeen(Repeat(b, n) + Repeat(a, m)) == if m == 0 then [b] else [b, a]
    ensures IndicesOf(Repeat(b, n) + Repeat(a, m), b) == Range(0, n)
    ensures IndicesOf(Repeat(b, n) + Repeat(a, m), a) == Range(n, n + m)
  {
    TwoRunsOrder(b, a, n, m);
    TwoRunsDays(b, a, n, m);
  }

  lemma {:induction false} TwoRunsOrder(b: string, a: string, n: nat, m: nat)
    requires n >= 1 && a != b
    ensures FirstSeen(Repeat(b, n) + Repeat(a, m)) == if m == 0 then [b] else [b, a]
  {
    var ls := Repeat(b, n) + Repeat(a, m);
    if m == 0 {
      assert ls == Repeat(b, n);
      RunOf(b, n);
    } else {
      var init := Repeat(b, n) + Repeat(a, m - 1);
      TwoRunsInit(b, a, n, m);
      TwoRunsOrder(b, a, n, m - 1);
      assert FirstSeen(ls) == if a in FirstSeen(init) then FirstSeen(init) else FirstSeen(init) + [a];
    }
  }

  /** Two runs less their last entry are the shorter second run. */
  lemma TwoRunsInit(b: string, a: string, n: nat, m: nat)
    requires m >= 1
    ensures var ls := Repeat(b, n) + Repeat(a, m);
      ls[..|ls| - 1] == Repeat(b, n) + Repeat(a, m - 1) && ls[|ls| - 1] == a
  {
    var ls, init := Repeat(b, n) + Repeat(a, m), Repeat(b, n) + Repeat(a, m - 1);
    assert forall i :: 0 <= i < |init| ==> ls[i] == init[i];
  }

  lemma {:induction false} TwoRunsDays(b: string, a: string, n: nat, m: nat)
    requires n >= 1 && a != b
    ensures IndicesOf(Repeat(b, n) + Repeat(a, m), b) == Range(0, n)
    ensures IndicesOf(Repeat(b, n) + Repeat(a, m), a) == Range(n, n + m)
  {
    var ls := Repeat(b, n) + Repeat(a, m);
    if m == 0 {
      assert ls == Repeat(b, n);
      RunOf(b, n);
      IndicesOfAbsent(ls, a);
    } else {
      TwoRunsInit(b, a, n, m);
      TwoRunsDays(b, a, n, m - 1);
      assert Range(n, n + m - 1) + [n + m - 1] == Range(n, n + m);
    }
  }

  /** A gap-free run of three or more days of the week is collapsed to the
      names of its first and last day. */
  lemma RunCollapses(lo: int, hi: int)
    requires 0 <= lo && lo + 3 <= hi <= 7
    ensures GroupDays(Range(lo, hi)) == [Some(DayNames[lo] + " - " + DayNames[hi - 1])]
  {
    var days := Range(lo, hi);
    assert days[0] == lo && days[|days| - 1] == hi - 1 && IsConsecutiveArray(days);
  }

  /** Fewer than three days are listed one by one. */
  lemma ShortRunListed(lo: int, hi: int)
    requires 0 <= lo <= hi <= 7 && hi - lo < 3
    ensures GroupDays(Range(lo, hi)) == seq(hi - lo, j requires 0 <= j < hi - lo => Some(DayNames[lo + j]))
  {
  }

  /** A whole week with one label: one group, collapsed to
      "Sunday - Saturday". */
  lemma WholeWeekCollapses(a: string)
    ensures FirstSeen(Repeat(a, 7)) == [a]
    ensures GroupDays(IndicesOf(Repeat(a, 7), a)) == [Some("Sunday - Saturday")]
  {
    RunOf(a, 7);
    WeekRange();
  }

  lemma WeekRange()
    ensures GroupDays(Range(0, 7)) == [Some("Sunday - Saturday")]
  {
    RunCollapses(0, 7);
    assert DayNames[0] + " - " + DayNames[6] == "Sunday - Saturday";
  }

  /** Two days with one label, then five with another: the run of two is
      listed day by day, the run of five is collapsed to a range. */
  lemma TwoDayRunListed(a: string, b: string)
    requires a != b
    ensures FirstSeen(Repeat(b, 2) + Repeat(a, 5)) == [b, a]
    ensures GroupDays(IndicesOf(Repeat(b, 2) + Repeat(a, 5), b)) == [Some("Sunday"), Some("Monday")]
    ensures GroupDays(IndicesOf(Repeat(b, 2) + Repeat(a, 5), a)) == [Some("Tuesday - Saturday")]
  {
    TwoRuns(b, a, 2, 5);
    WeekendStartListed();
    WeekdaysRange();
  }

  lemma WeekendStartListed()
    ensures GroupDays(Range(0, 2)) == [Some("Sunday"), Some("Monday")]
  {
    ShortRunListed(0, 2);
  }

  lemma WeekdaysRange()
    ensures GroupDays(Range(2, 7)) == [Some("Tuesday - Saturday")]
  {
    RunCollapses(2, 7);
    assert DayNames[2] + " - " + DayNames[6] == "Tuesday - Saturday";
  }
}
