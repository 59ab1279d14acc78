/** The keyword-argument formats of src/core/common.c: the scanner `next_arg` and its user
    `kwargs_unpack`.  A C string is the sequence of its characters without the terminator; a pointer into
    it is a position, the terminator's position being the length. */
module Kwargs {
  import opened Bytes

  predicate IsVarChar(c: char) {
    'a' <= c <= 'z' || 'A' <= c <= 'Z' || '0' <= c <= '9' || c == '_'
  }

  /** Letters, digits and the underscore, up to their neighbours in the character set. */
  lemma NameCharacters()
    ensures IsVarChar('a') && IsVarChar('z') && !IsVarChar('`') && !IsVarChar('{')
    ensures IsVarChar('A') && IsVarChar('Z') && !IsVarChar('@') && !IsVarChar('[')
    ensures IsVarChar('0') && IsVarChar('9') && !IsVarChar('/') && !IsVarChar(':')
    ensures IsVarChar('_') && !IsVarChar('^') && !IsVarChar('\0')
  {
  }

  /** What one scan finds: where the next argument starts, or that this was the last one; the length of the
      argument scanned, -1 if the scan only skipped to the first; and the flag as it stands afterwards.
      Overrun: the scan ran past the terminator. */
  datatype Scanned =
    | Next(at: nat, arglen: int, optional: bool)
    | Last(arglen: int, optional: bool)
    | Overrun

  /** The leading characters of a name, up to a delimiter. */
  function WordLength(t: string, delim: char): (n: nat)
    ensures n <= |t| && forall i :: 0 <= i < n ==> IsVarChar(t[i]) && t[i] != delim
    ensures n < |t| ==> !IsVarChar(t[n]) || t[n] == delim
  {
    if t == "" || !IsVarChar(t[0]) || t[0] == delim then 0 else 1 + WordLength(t[1..], delim)
  }

  /** The leading characters that belong to no name. */
  function GapLength(t: string): (n: nat)
    ensures n <= |t| && forall i :: 0 <= i < n ==> !IsVarChar(t[i])
    ensures n < |t| ==> IsVarChar(t[n])
  {
    if t == "" || IsVarChar(t[0]) then 0 else 1 + GapLength(t[1..])
  }

  /** The optional flag after the characters of a gap. */
  function FlagAfter(gap: string, open: char, close: char, flag: bool): bool {
    if gap == "" then flag
    else
      var before := FlagAfter(gap[..|gap| - 1], open, close, flag);
      var c := gap[|gap| - 1];
      if c == open then true else if c == close then false else before
  }

  /** One scan of `t`. */
  function ScanOf(t: string, delim: char, open: char, close: char, flag: bool): Scanned {
    if t == "" || !IsVarChar(t[0]) then
      var n := GapLength(t);
      if n == |t| then Overrun else Next(n, -1, FlagAfter(t[..n], open, close, flag))
    else
      var w := WordLength(t, delim);
      var n := w + GapLength(t[w..]);
      var after := FlagAfter(t[w..n], open, close, flag);
      if n == |t| then Last(w, after) else Next(n, w, after)
  }

  /** The loop over a gap, which keeps the optional flag. */
  method SkipGap(str: string, from: nat, open: char, close: char, flag: bool) returns (next: nat, optional: bool)
    requires from <= |str|
    ensures next == from + GapLength(str[from..]) <= |str|
    ensures optional == FlagAfter(str[from..next], open, close, flag)
  {
    hide GapLength, FlagAfter;
    next, optional := from, flag;
    FlagOfNothing(str[from..from], open, close, flag);
    while next < |str| && !IsVarChar(str[next])
      invariant from <= next <= |str| && GapLength(str[from..]) == next - from + GapLength(str[next..])
      invariant optional == FlagAfter(str[from..next], open, close, flag)
    {
      if str[next] == open {
        optional := true;
      } else if str[next] == close {
        optional := false;
      }
      GapStep(str, from, next, open, close, flag);
      next := next + 1;
    }
    GapEnds(str, next);
  }

  lemma FlagOfNothing(gap: string, open: char, close: char, flag: bool)
    requires gap == ""
    ensures FlagAfter(gap, open, close, flag) == flag
  {
  }

  lemma GapEnds(str: string, next: nat)
    requires next <= |str| && (next == |str| || IsVarChar(str[next]))
    ensures GapLength(str[next..]) == 0
  {
  }

  lemma GapStep(str: string, from: nat, next: nat, open: char, close: char, flag: bool)
    requires from <= next < |str| && !IsVarChar(str[next])
    ensures GapLength(str[next..]) == 1 + GapLength(str[next + 1..])
    ensures FlagAfter(str[from..next + 1], open, close, flag) ==
            if str[next] == open then true else if str[next] == close then false
            else FlagAfter(str[from..next], open, close, flag)
  {
    assert str[next..][1..] == str[next + 1..];
    assert str[from..next + 1][..next - from] == str[from..next];
  }

  /** The loop over a name. */
  method SkipWord(str: string, from: nat, delim: char) returns (next: nat)
    requires from <= |str|
    ensures next == from + WordLength(str[from..], delim) <= |str|
  {
    next := from;
    while next < |str| && IsVarChar(str[next]) && str[next] != delim
      invariant from <= next <= |str|
      invariant WordLength(str[from..], delim) == next - from + WordLength(str[next..], delim)
    {
      assert str[next..][1..] == str[next + 1..];
      next := next + 1;
    }
  }

  /** The loop that decides whether any name is left. */
  method NoneLeft(str: string, from: nat) returns (lastArg: bool)
    requires from <= |str|
    ensures lastArg == forall j :: from <= j < |str| ==> !IsVarChar(str[j])
  {
    lastArg := true;
    var i := from;
    while i < |str|
      invariant from <= i <= |str| && lastArg == forall j :: from <= j < i ==> !IsVarChar(str[j])
    {
      if IsVarChar(str[i]) {
        lastArg := false;
      }
      i := i + 1;
    }
  }

  /** A scan's result with positions counted from `from` on. */
  function Shifted(r: Scanned, from: nat): Scanned {
    match r
    case Next(at, arglen, optional) => Next(from + at, arglen, optional)
    case Last(_, _) => r
    case Overrun => r
  }

  /** `next_arg` once its default arguments are filled in. */
  method ScanFrom(str: string, from: nat, delim: char, open: char, close: char, flag: bool) returns (r: Scanned)
    requires from <= |str|
    ensures r == Shifted(ScanOf(str[from..], delim, open, close, flag), from)
  {
    hide WordLength, GapLength, FlagAfter;
    ghost var t := str[from..];
    if from == |str| || !IsVarChar(str[from]) {
      var next, optional := SkipGap(str, from, open, close, flag);
      assert t[..next - from] == str[from..next];
      return if next == |str| then Overrun else Next(next, -1, optional);
    }
    var end := SkipWord(str, from, delim);
    var next, optional := SkipGap(str, end, open, close, flag);
    assert t[end - from..] == str[end..] && t[end - from..next - from] == str[end..next];
    assert next < |str| ==> str[end..][next - end] == str[next];
    var lastArg := NoneLeft(str, next);
    r := if lastArg then Last(end - from, optional) else Next(next, end - from, optional);
  }

  /** `next_arg`: a NUL delimiter stands for the semicolon, NULL marks for the parentheses. */
  method NextArg(str: string, from: nat, delimiter: char, marks: Option<(char, char)>, flag: bool)
    returns (r: Scanned)
    requires from <= |str| && '\0' !in str
    ensures r == Shifted(ScanOf(str[from..], if delimiter == '\0' then ';' else delimiter,
                              if marks.None? then '(' else marks.value.0,
                              if marks.None? then ')' else marks.value.1, flag), from)
  {
    var delim := if delimiter == '\0' then ';' else delimiter;
    var (open, close) := if marks.None? then ('(', ')') else marks.value;
    r := ScanFrom(str, from, delim, open, close, flag);
  }

  // ---- iterating over a format ----

  /** A name in a format and whether it is optional where it stands. */
  datatype Item = Item(name: string, optional: bool)

  /** The arguments `kwargs_unpack` sees in `t`, each with the flag as it was on entry; a scan that only
      skips is passed over.  None: a scan ran past the terminator. */
  function Visit(t: string, flag: bool): Option<seq<Item>>
    decreases |t|
  {
    match ScanOf(t, ';', '(', ')', flag)
    case Overrun => None
    case Last(arglen, _) => Some([Item(t[..arglen], flag)])
    case Next(at, arglen, after) =>
      match Visit(t[at..], after)
      case None => None
      case Some(rest) => Some(if arglen < 1 then rest else [Item(t[..arglen], flag)] + rest)
  }

  /** A scan runs past the terminator if and only if the format names nothing at all; after the first name
      none does. */
  lemma {:induction false} VisitOverruns(t: string, flag: bool)
    ensures Visit(t, flag).None? <==> GapLength(t) == |t|
    decreases |t|
  {
    match ScanOf(t, ';', '(', ')', flag)
    case Overrun =>
    case Last(_, _) =>
    case Next(at, _, after) =>
      VisitOverruns(t[at..], after);
  }

  /** How formats are written: every name with a semicolon, and a parenthesis at each change of
      optionality, the last one closed at the end. */
  function Print(items: seq<Item>, inside: bool): string {
    if items == [] then (if inside then ")" else "")
    else Mark(inside, items[0].optional) + items[0].name + ";" + Print(items[1..], items[0].optional)
  }

  function Mark(inside: bool, optional: bool): string {
    if inside == optional then "" else if optional then "(" else ")"
  }

  predicate IsName(name: string) {
    name != "" && forall i :: 0 <= i < |name| ==> IsVarChar(name[i])
  }

  predicate AreNames(items: seq<Item>) {
    forall i :: 0 <= i < |items| ==> IsName(items[i].name)
  }

  /** Scanning a name, a gap and what follows it. */
  lemma ScanParts(name: string, gap: string, after: string, flag: bool)
    requires IsName(name) && gap != "" && (forall i :: 0 <= i < |gap| ==> !IsVarChar(gap[i]))
    requires after == "" || IsVarChar(after[0])
    ensures ScanOf(name + (gap + after), ';', '(', ')', flag) ==
            if after == "" then Last(|name|, FlagAfter(gap, '(', ')', flag))
            else Next(|name| + |gap|, |name|, FlagAfter(gap, '(', ')', flag))
  {
    hide FlagAfter;
    var t := name + (gap + after);
    WordOf(name, gap + after);
    GapOf(gap, after);
    assert t[|name|..] == gap + after;
    assert t[|name|..|name| + |gap|] == gap;
    assert t[0] == name[0];
  }

  /** A printed list whose first mark is already behind: the first name, the gap up to the next, the rest. */
  function Opened(items: seq<Item>): string
    requires items != []
  {
    items[0].name + ";" + Print(items[1..], items[0].optional)
  }

  lemma PrintOpens(items: seq<Item>, inside: bool)
    requires items != []
    ensures Print(items, inside) == Mark(inside, items[0].optional) + Opened(items)
  {
    var m, n, rest := Mark(inside, items[0].optional), items[0].name, Print(items[1..], items[0].optional);
    Regroup(m, n, ";");
    Regroup(m, n + ";", rest);
  }

  lemma OpenedParts(items: seq<Item>)
    requires items != []
    ensures |items| == 1 ==> Opened(items) == items[0].name + (";" + Mark(items[0].optional, false) + "")
    ensures |items| > 1 ==>
              Opened(items) == items[0].name + (";" + Mark(items[0].optional, items[1].optional) + Opened(items[1..]))
  {
    if |items| > 1 {
      PrintOpens(items[1..], items[0].optional);
    }
  }

  /** The name of the first item is scanned with its length, and its flag gives way to the next one's. */
  lemma ScanOpened(items: seq<Item>)
    requires items != [] && AreNames(items)
    ensures ScanOf(Opened(items), ';', '(', ')', items[0].optional) ==
            if |items| == 1 then Last(|items[0].name|, false)
            else Next(|Opened(items)| - |Opened(items[1..])|, |items[0].name|, items[1].optional)
  {
    hide ScanOf, Print;
    var o, next := items[0].optional, |items| > 1 && items[1].optional;
    var gap := ";" + Mark(o, next);
    var after := if |items| > 1 then Opened(items[1..]) else "";
    OpenedParts(items);
    FlagOfGap(o, next);
    if |items| > 1 {
      NameFirst(items[1..]);
    }
    ScanParts(items[0].name, gap, after, o);
  }

  lemma NameFirst(items: seq<Item>)
    requires items != [] && IsName(items[0].name)
    ensures items[0].name <= Opened(items) && IsVarChar(Opened(items)[0])
  {
  }

  lemma {:induction false} VisitOpened(items: seq<Item>)
    requires items != [] && AreNames(items)
    ensures Visit(Opened(items), items[0].optional) == Some(items)
    decreases |items|
  {
    hide ScanOf, Print, Opened;
    ScanOpened(items);
    NameFirst(items);
    var t := Opened(items);
    assert t[..|items[0].name|] == items[0].name;
    if |items| == 1 {
      assert items == [Item(items[0].name, items[0].optional)];
    } else {
      VisitOpened(items[1..]);
      OpenedParts(items);
      assert t[|t| - |Opened(items[1..])|..] == Opened(items[1..]);
      assert items == [Item(items[0].name, items[0].optional)] + items[1..];
    }
  }

  /** Round trip: iterating over a printed list of items visits exactly its names, in order, each with its
      own flag; the empty list prints as nothing, and scanning nothing runs past the terminator. */
  lemma VisitPrinted(items: seq<Item>)
    requires AreNames(items)
    ensures Visit(Print(items, false), false) == if items == [] then None else Some(items)
  {
    if items != [] {
      PrintOpens(items, false);
      VisitOpened(items);
      if items[0].optional {
        SkipToFirst(Opened(items), items);
      } else {
        assert "" + Opened(items) == Opened(items);
      }
    }
  }

  /** A format as callers write them: `a` is optional and `b` required. */
  lemma VisitExample()
    ensures Visit("(a;)b;", false) == Some([Item("a", true), Item("b", false)])
  {
    hide Visit, Print;
    var last := [Item("b", false)];
    var items := [Item("a", true)] + last;
    PrintNothing();
    assert last == [Item("b", false)] + [];
    PrintNext(Item("b", false), [], true, ")b;");
    PrintNext(Item("a", true), last, false, "(a;)b;");
    assert items == [Item("a", true), Item("b", false)];
    VisitPrinted(items);
  }

  lemma PrintNothing()
    ensures Print([], false) == ""
  {
  }

  lemma PrintNext(item: Item, rest: seq<Item>, inside: bool, printed: string)
    requires printed == Mark(inside, item.optional) + item.name + ";" + Print(rest, item.optional)
    ensures Print([item] + rest, inside) == printed
  {
    assert ([item] + rest)[1..] == rest;
  }

  /** The last mark of a gap decides; without a mark the flag sticks. */
  lemma {:induction false} LastMarkDecides(gap: string, open: char, close: char, flag: bool)
    requires open != close
    ensures (forall i :: 0 <= i < |gap| ==> gap[i] != open && gap[i] != close) ==>
              FlagAfter(gap, open, close, flag) == flag
    ensures forall i :: 0 <= i < |gap| && (gap[i] == open || gap[i] == close)
                        && (forall j :: i < j < |gap| ==> gap[j] != open && gap[j] != close) ==>
              FlagAfter(gap, open, close, flag) == (gap[i] == open)
  {
    if gap != "" {
      var last := |gap| - 1;
      LastMarkDecides(gap[..last], open, close, flag);
      forall i | 0 <= i < last && (gap[i] == open || gap[i] == close)
                 && forall j :: i < j < |gap| ==> gap[j] != open && gap[j] != close
        ensures FlagAfter(gap, open, close, flag) == (gap[i] == open)
      {
        assert gap[..last][i] == gap[i];
        assert forall j :: i < j < last ==> gap[..last][j] == gap[j];
        assert gap[last] != open && gap[last] != close;
      }
    }
  }

  lemma SkipToFirst(t: string, items: seq<Item>)
    requires items != [] && IsName(items[0].name) && t == Opened(items)
    ensures ScanOf("(" + t, ';', '(', ')', false) == Next(1, -1, true)
    ensures Visit("(" + t, false) == Visit(t, true)
  {
    NameFirst(items);
    GapOf("(", t);
    assert ("(" + t)[..1] == "(" && ("(" + t)[1..] == t;
    assert "("[..0] == "";
  }

  lemma FlagOfGap(before: bool, after: bool)
    ensures FlagAfter(";" + Mark(before, after), '(', ')', before) == after
  {
    var gap := ";" + Mark(before, after);
    assert gap[..|gap| - 1] == if before == after then "" else ";";
    assert ";"[..0] == "";
  }

  lemma {:induction false} GapOf(gap: string, t: string)
    requires forall i :: 0 <= i < |gap| ==> !IsVarChar(gap[i])
    requires t == "" || IsVarChar(t[0])
    ensures GapLength(gap + t) == |gap|
  {
    if gap == "" {
      assert gap + t == t;
    } else {
      assert (gap + t)[1..] == gap[1..] + t;
      GapOf(gap[1..], t);
    }
  }

  lemma {:induction false} WordOf(name: string, rest: string)
    requires forall i :: 0 <= i < |name| ==> IsVarChar(name[i])
    requires rest == "" || !IsVarChar(rest[0])
    ensures WordLength(name + rest, ';') == |name|
  {
    if name == "" {
      assert name + rest == rest;
    } else {
      assert (name + rest)[1..] == name[1..] + rest;
      WordOf(name[1..], rest);
    }
  }

  // ---- kwargs_unpack ----

  /** The place of the first argument of that name, or the number of arguments. */
  function IndexOf(names: seq<string>, key: string): (i: nat)
    ensures i <= |names| && (i < |names| ==> names[i] == key) && key !in names[..i]
  {
    if names == [] || names[0] == key then 0
    else
      assert names[..1 + IndexOf(names[1..], key)] == [names[0]] + names[1..][..IndexOf(names[1..], key)];
      1 + IndexOf(names[1..], key)
  }

  /** The place of the first key that is required and not among the arguments, or the number of keys. */
  function FirstMissing(keys: seq<Item>, names: seq<string>): (k: nat)
    ensures k <= |keys| && (k < |keys| ==> !keys[k].optional && keys[k].name !in names)
    ensures forall j :: 0 <= j < k ==> keys[j].optional || keys[j].name in names
  {
    if keys == [] || (!keys[0].optional && keys[0].name !in names) then 0
    else 1 + FirstMissing(keys[1..], names)
  }

  /** What a slot holds once its key has been dealt with. */
  function Slot<T>(key: Item, names: seq<string>, args: seq<T>, old': T): T
    requires |args| == |names|
  {
    var i := IndexOf(names, key.name);
    if i < |names| then args[i] else old'
  }

  /** The search loop over the arguments. */
  method FindArg(names: seq<string>, key: string) returns (i: nat)
    ensures i == IndexOf(names, key)
  {
    i := 0;
    while i < |names|
      invariant i <= |names| && IndexOf(names, key) == i + IndexOf(names[i..], key)
    {
      if key == names[i] {
        break;
      }
      assert names[i..][1..] == names[i + 1..];
      i := i + 1;
    }
  }

  /** One scan seen from the list of keys still to come. */
  lemma VisitStep(t: string, flag: bool, keys: seq<Item>)
    requires Visit(t, flag) == Some(keys)
    ensures var r := ScanOf(t, ';', '(', ')', flag);
            !r.Overrun? && r.arglen <= |t|
            && (r.Last? ==> r.arglen >= 1 && keys == [Item(t[..r.arglen], flag)])
            && (r.Next? ==> 0 < r.at <= |t|)
            && (r.Next? && r.arglen < 1 ==> Visit(t[r.at..], r.optional) == Some(keys))
            && (r.Next? && r.arglen >= 1 ==>
                  keys != [] && keys[0] == Item(t[..r.arglen], flag) && Visit(t[r.at..], r.optional) == Some(keys[1..]))
  {
  }

  /** The keys of a format that names something. */
  function Keys(fmt: string): (keys: seq<Item>)
    requires GapLength(fmt) < |fmt|
    ensures Visit(fmt, false) == Some(keys)
  {
    VisitOverruns(fmt, false);
    Visit(fmt, false).value
  }

  /** `kwargs_unpack` on a format that names something: one output slot for each key of the format, in
      order.  It fails with -1 at the first required key that is missing; the slots before it, and all
      slots if none is missing, hold the first argument of their key's name if there is one, and the others
      are untouched. */
  method KwargsUnpack<T>(names: seq<string>, args: seq<T>, fmt: string, slots: array<T>) returns (rc: int)
    requires |args| == |names| && '\0' !in fmt && GapLength(fmt) < |fmt|
    requires |Keys(fmt)| <= slots.Length
    modifies slots
    ensures var keys := Keys(fmt);
            var stop := FirstMissing(keys, names);
            (rc == 0 || rc == -1) && (rc == 0 <==> stop == |keys|)
            && forall j :: 0 <= j < slots.Length ==>
                 slots[j] == if j < stop then Slot(keys[j], names, args, old(slots[j])) else old(slots[j])
    ensures var keys := Keys(fmt);
            forall j :: 0 <= j < FirstMissing(keys, names) ==>
              (keys[j].name !in names ==> slots[j] == old(slots[j]))
              && forall i :: 0 <= i < |names| && names[i] == keys[j].name && keys[j].name !in names[..i] ==>
                   slots[j] == args[i]
  {
    hide ScanOf, GapLength, Visit, Slot, IndexOf, FirstMissing;
    ghost var keys := Keys(fmt);
    ghost var was := slots[..];
    forall j | 0 <= j < |keys| {
      SlotTells(keys[j], names, args, was[j]);
    }
    assert fmt[0..] == fmt && keys[0..] == keys;
    var at: nat, done, opt, k: nat := 0, false, false, 0;
    while !done
      invariant at <= |fmt| && k <= |keys| && (done ==> k == |keys|)
      invariant !done ==> Visit(fmt[at..], opt) == Some(keys[k..])
      invariant k <= FirstMissing(keys, names)
      invariant Filled(keys, names, args, was, slots[..], k)
      decreases !done, |fmt| - at
    {
      var prev, optPrev := at, opt;
      var r := NextArg(fmt, at, ';', None, opt);
      NextKey(fmt, at, opt, keys, k);
      if r.Next? {
        at := r.at;
      } else {
        done := true;
      }
      opt := r.optional;
      if r.arglen < 1 {
        continue;
      }
      var found := UnpackKey(names, args, fmt[prev..prev + r.arglen], slots, keys, was, k);
      MissingFrom(keys, names, k);
      if !found && !optPrev {
        return -1;
      }
      k := k + 1;
    }
    rc := 0;
  }

  /** The first argument of the key's name, or what was there. */
  lemma SlotTells<T>(key: Item, names: seq<string>, args: seq<T>, old': T)
    requires |args| == |names|
    ensures key.name !in names ==> Slot(key, names, args, old') == old'
    ensures forall i :: 0 <= i < |names| && names[i] == key.name && key.name !in names[..i] ==>
              Slot(key, names, args, old') == args[i]
  {
    forall i | 0 <= i < |names| && names[i] == key.name && key.name !in names[..i]
      ensures IndexOf(names, key.name) == i
    {
      FirstIs(names, key.name, i);
    }
  }

  lemma {:induction false} FirstIs(names: seq<string>, key: string, i: nat)
    requires i < |names| && names[i] == key && key !in names[..i]
    ensures IndexOf(names, key) == i
  {
    if i > 0 {
      assert names[..i][0] == names[0];
      assert names[..i][1..] == names[1..][..i - 1];
      FirstIs(names[1..], key, i - 1);
    }
  }

  /** The slots of the first `k` keys have been dealt with. */
  ghost predicate Filled<T>(keys: seq<Item>, names: seq<string>, args: seq<T>, was: seq<T>, now: seq<T>, k: nat)
    requires |args| == |names| && k <= |keys| <= |was| == |now|
  {
    forall j :: 0 <= j < |now| ==> now[j] == if j < k then Slot(keys[j], names, args, was[j]) else was[j]
  }

  /** The output slot of one key. */
  method UnpackKey<T>(names: seq<string>, args: seq<T>, key: string, slots: array<T>,
                      ghost keys: seq<Item>, ghost was: seq<T>, k: nat) returns (found: bool)
    requires |args| == |names| && k < |keys| <= |was| == slots.Length && keys[k].name == key
    requires Filled(keys, names, args, was, slots[..], k)
    modifies slots
    ensures Filled(keys, names, args, was, slots[..], k + 1) && found == (key in names)
    ensures !found ==> slots[..] == old(slots[..])
  {
    var i := FindArg(names, key);
    found := i < |names|;
    if found {
      slots[k] := args[i];
    }
  }

  /** Scanning on from the key at `k`, with positions counted in the whole format. */
  lemma NextKey(fmt: string, at: nat, opt: bool, keys: seq<Item>, k: nat)
    requires at <= |fmt| && k <= |keys| && Visit(fmt[at..], opt) == Some(keys[k..])
    ensures var r := Shifted(ScanOf(fmt[at..], ';', '(', ')', opt), at);
            !r.Overrun? && at + r.arglen <= |fmt|
            && (r.Last? ==> r.arglen >= 1 && k + 1 == |keys|)
            && (r.Next? ==> at < r.at <= |fmt|)
            && (r.Next? && r.arglen < 1 ==> Visit(fmt[r.at..], r.optional) == Some(keys[k..]))
            && (r.arglen >= 1 ==> k < |keys| && keys[k] == Item(fmt[at..at + r.arglen], opt))
            && (r.Next? && r.arglen >= 1 ==> Visit(fmt[r.at..], r.optional) == Some(keys[k + 1..]))
  {
    hide ScanOf, Visit;
    VisitStep(fmt[at..], opt, keys[k..]);
    var r := ScanOf(fmt[at..], ';', '(', ')', opt);
    if r.Next? {
      DropDrop(fmt, at, r.at);
    }
    if r.arglen >= 1 {
      TakeDrop(fmt, at, r.arglen);
      DropDrop(keys, k, 1);
    }
  }

  /** A key at which nothing was missing before is the first missing one or is passed. */
  lemma MissingFrom(keys: seq<Item>, names: seq<string>, k: nat)
    requires k < |keys| && k <= FirstMissing(keys, names)
    ensures FirstMissing(keys, names) == k <==> !keys[k].optional && keys[k].name !in names
  {
  }
}
