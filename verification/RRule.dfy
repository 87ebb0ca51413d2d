/**
  Merging a recurrence rule edited in the dashboard into the one a client wrote: parse both, merge
  part by part, print.  FREQ, INTERVAL, UNTIL and COUNT follow the edit; other parts stay.
 */
module RRule {
  import opened Strings

  datatype Part = Part(key: string, value: string)

  // ----- parsing -----

  function IndexOf(s: string, c: char): (i: nat)
    ensures i <= |s| && c !in s[..i] && (i < |s| ==> s[i] == c)
  {
    if s == "" || s[0] == c then 0
    else
      var i := IndexOf(s[1..], c);
      assert s[..i + 1] == [s[0]] + s[1..][..i];
      1 + i
  }

  function Split(s: string, sep: char): (pieces: seq<string>)
    ensures |pieces| > 0
    decreases |s|
  {
    var i := IndexOf(s, sep);
    if i == |s| then [s] else [s[..i]] + Split(s[i + 1..], sep)
  }

  /** The part a piece stands for, if it has a key and a =. */
  function PartOf(piece: string): seq<Part> {
    var p := Trim(piece);
    var i := IndexOf(p, '=');
    if i == |p| then []
    else
      var k := ToUpper(Trim(p[..i]));
      if k == "" then [] else [Part(k, Trim(p[i + 1..]))]
  }

  function PartsOf(pieces: seq<string>): seq<Part> {
    if pieces == [] then [] else PartsOf(pieces[..|pieces| - 1]) + PartOf(pieces[|pieces| - 1])
  }

  function Parse(s: string): seq<Part> {
    PartsOf(Split(s, ';'))
  }

  method ParseRRuleParts(s: string) returns (parts: seq<Part>)
    ensures parts == Parse(s)
  {
    parts := [];
    var pieces := Split(s, ';');
    assert pieces[..0] == [];
    for i := 0 to |pieces|
      invariant parts == PartsOf(pieces[..i])
    {
      assert pieces[..i + 1][..i] == pieces[..i];
      var p := Trim(pieces[i]);
      if p == "" {
        continue;
      }
      var cut := IndexOf(p, '=');
      if cut == |p| {
        continue;
      }
      var k, v := ToUpper(Trim(p[..cut])), Trim(p[cut + 1..]);
      if k == "" {
        continue;
      }
      parts := parts + [Part(k, v)];
    }
    assert pieces[..|pieces|] == pieces;
  }

  predicate Mentions(parts: seq<Part>, key: string) {
    parts != [] && (parts[|parts| - 1].key == key || Mentions(parts[..|parts| - 1], key))
  }

  /** The last value for the key, as in the map that rrulePartMap builds; empty if there is none. */
  function Value(parts: seq<Part>, key: string): string {
    if parts == [] then ""
    else if parts[|parts| - 1].key == key then parts[|parts| - 1].value
    else Value(parts[..|parts| - 1], key)
  }

  // ----- merging -----

  function MergeUntil(existing: string, incoming: string): string {
    var (e, i) := (Trim(existing), Trim(incoming));
    if i == "" then e
    else if e == "" || i == e then i
    else if |i| == 8 && i <= e then e
    else i
  }

  function Interval(incoming: seq<Part>): string {
    if Value(incoming, "INTERVAL") != "" then Value(incoming, "INTERVAL") else "1"
  }

  /** What an existing part offers: nothing, or its key with the value after the edit. */
  function Existing(p: Part, incoming: seq<Part>): seq<Part> {
    if p.key == "INTERVAL" then [Part(p.key, Interval(incoming))]
    else if p.key == "UNTIL" then
      if Mentions(incoming, "UNTIL") then [Part(p.key, MergeUntil(p.value, Value(incoming, "UNTIL")))] else []
    else if p.key == "COUNT" then
      if Mentions(incoming, "COUNT") then [Part(p.key, Value(incoming, "COUNT"))] else []
    else if Mentions(incoming, p.key) then [Part(p.key, Value(incoming, p.key))]
    else [p]
  }

  /** What an incoming part offers. */
  function Incoming(p: Part, existing: seq<Part>, incoming: seq<Part>): Part {
    if p.key == "INTERVAL" then Part(p.key, Interval(incoming))
    else if p.key == "UNTIL" then Part(p.key, MergeUntil(Value(existing, "UNTIL"), p.value))
    else p
  }

  datatype Taken = Taken(out: seq<Part>, seen: set<string>)

  /** A part is taken if it has a value and its key is new; an interval of 1 goes without saying. */
  function Push(t: Taken, p: Part): Taken {
    if p.key == "" || p.key in t.seen then t
    else if p.key == "INTERVAL" && (p.value == "" || p.value == "1") then t.(seen := t.seen + {p.key})
    else if p.value == "" then t
    else Taken(t.out + [p], t.seen + {p.key})
  }

  function PushAll(t: Taken, offers: seq<Part>): Taken {
    if offers == [] then t else Push(PushAll(t, offers[..|offers| - 1]), offers[|offers| - 1])
  }

  function FromExisting(parts: seq<Part>, incoming: seq<Part>): seq<Part> {
    if parts == [] then []
    else FromExisting(parts[..|parts| - 1], incoming) + Existing(parts[|parts| - 1], incoming)
  }

  function FromIncoming(parts: seq<Part>, existing: seq<Part>, incoming: seq<Part>): (offers: seq<Part>)
    ensures |offers| == |parts|
  {
    seq(|parts|, i requires 0 <= i < |parts| => Incoming(parts[i], existing, incoming))
  }

  /** Everything that is offered, in order: existing parts, incoming parts, the interval. */
  function Offers(existing: seq<Part>, incoming: seq<Part>): seq<Part> {
    FromExisting(existing, incoming) + FromIncoming(incoming, existing, incoming) + [Part("INTERVAL", Interval(incoming))]
  }

  const NOTHING := Taken([], {})

  function MergeParts(existing: seq<Part>, incoming: seq<Part>): seq<Part> {
    PushAll(NOTHING, Offers(existing, incoming)).out
  }

  function PrintPart(p: Part): string {
    p.key + "=" + p.value
  }

  function Print(parts: seq<Part>): string {
    if parts == [] then ""
    else if |parts| == 1 then PrintPart(parts[0])
    else Print(parts[..|parts| - 1]) + ";" + PrintPart(parts[|parts| - 1])
  }

  /** Both rules have the same frequency, in any case of letters. */
  predicate SameFreq(existing: seq<Part>, incoming: seq<Part>) {
    EqualFold(Value(existing, "FREQ"), Value(incoming, "FREQ")) && Value(incoming, "FREQ") != ""
  }

  function Merge(existing: string, incoming: string): string {
    var (e, i) := (Trim(existing), Trim(incoming));
    if i == "" then ""
    else if e == "" || e == i || !SameFreq(Parse(e), Parse(i)) then i
    else Print(MergeParts(Parse(e), Parse(i)))
  }

  lemma {:induction false} PushAllConcat(t: Taken, a: seq<Part>, b: seq<Part>)
    ensures PushAll(t, a + b) == PushAll(PushAll(t, a), b)
    decreases |b|
  {
    if b == [] {
      assert a + b == a;
    } else {
      var k := |b| - 1;
      PushAllConcat(t, a, b[..k]);
      assert (a + b)[..|a + b| - 1] == a + b[..k];
    }
  }

  method MergeRRule(existing: string, incoming: string) returns (merged: string)
    ensures merged == Merge(existing, incoming)
  {
    hide Trim, Parse, EqualFold, MergeParts, Print;
    var i := Trim(incoming);
    var e := Trim(existing);
    if i == "" {
      return "";
    }
    if e == "" || e == i {
      return i;
    }
    var ex := ParseRRuleParts(e);
    var inc := ParseRRuleParts(i);
    if !EqualFold(Value(ex, "FREQ"), Value(inc, "FREQ")) || Value(inc, "FREQ") == "" {
      assert !SameFreq(ex, inc);
      return i;
    }
    var parts := MergeInOrder(ex, inc);
    merged := PrintParts(parts);
  }

  method MergeInOrder(ex: seq<Part>, inc: seq<Part>) returns (out: seq<Part>)
    ensures out == MergeParts(ex, inc)
  {
    var t := PushExisting(ex, inc);
    t := PushIncoming(t, ex, inc);
    ghost var most := FromExisting(ex, inc) + FromIncoming(inc, ex, inc);
    PushAllConcat(NOTHING, FromExisting(ex, inc), FromIncoming(inc, ex, inc));
    ghost var last := Part("INTERVAL", Interval(inc));
    PushAllConcat(NOTHING, most, [last]);
    PushOne(t, last);
    if "INTERVAL" !in t.seen {
      t := Push(t, Part("INTERVAL", Interval(inc)));
    }
    out := t.out;
  }

  method PushExisting(ex: seq<Part>, inc: seq<Part>) returns (t: Taken)
    ensures t == PushAll(NOTHING, FromExisting(ex, inc))
  {
    t := NOTHING;
    assert ex[..0] == [];
    for k := 0 to |ex|
      invariant t == PushAll(NOTHING, FromExisting(ex[..k], inc))
    {
      assert ex[..k + 1][..k] == ex[..k];
      PushAllConcat(NOTHING, FromExisting(ex[..k], inc), Existing(ex[k], inc));
      var p := ex[k];
      var v := p.value;
      match p.key {
        case "INTERVAL" => v := Interval(inc);
        case "UNTIL" =>
          if !Mentions(inc, "UNTIL") { continue; }
          v := MergeUntil(v, Value(inc, "UNTIL"));
        case "COUNT" =>
          if !Mentions(inc, "COUNT") { continue; }
          v := Value(inc, "COUNT");
        case _ =>
          if Mentions(inc, p.key) { v := Value(inc, p.key); }
      }
      PushOne(t, Part(p.key, v));
      t := Push(t, Part(p.key, v));
    }
    assert ex[..|ex|] == ex;
  }

  lemma PushOne(t: Taken, p: Part)
    ensures PushAll(t, [p]) == Push(t, p) && PushAll(t, []) == t
  {
    assert [p][..0] == [];
  }

  method PushIncoming(start: Taken, ex: seq<Part>, inc: seq<Part>) returns (t: Taken)
    ensures t == PushAll(start, FromIncoming(inc, ex, inc))
  {
    t := start;
    ghost var offers := FromIncoming(inc, ex, inc);
    assert offers[..0] == [];
    for k := 0 to |inc|
      invariant t == PushAll(start, offers[..k])
    {
      assert offers[..k + 1][..k] == offers[..k];
      var p := inc[k];
      match p.key {
        case "INTERVAL" => t := Push(t, Part("INTERVAL", Interval(inc)));
        case "UNTIL" => t := Push(t, Part("UNTIL", MergeUntil(Value(ex, "UNTIL"), p.value)));
        case _ => t := Push(t, p);
      }
    }
    assert offers[..|offers|] == offers;
  }

  method PrintParts(parts: seq<Part>) returns (s: string)
    ensures s == Print(parts)
  {
    s := "";
    for i := 0 to |parts|
      invariant s == Print(parts[..i])
    {
      assert parts[..i + 1][..i] == parts[..i];
      if i > 0 {
        s := s + ";";
      }
      s := s + parts[i].key + "=" + parts[i].value;
    }
    assert parts[..|parts|] == parts;
  }
}
