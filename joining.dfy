/**
 `Array#join(sep)`, which `handle_message` applies to the messages of an
 'Error' entry. `SplitMessages` cuts a text at every ". "; the round trip at
 the end shows that messages which do not themselves contain ". " can be
 recovered one by one from the joined text. `InspectStringHash` states how
 `inspect` lays out a Hash of Strings with the same interleaving.
 */
module Joining {
  import opened Objects
  import Numerals
  import Inspection

  /** `to_s` of an element that is not an Array. */
  function ToS(v: Value): (r: string)
    requires !v.Array?
    ensures v.Nil? ==> r == ""
    ensures v.Str? ==> r == v.s
    ensures v.Int? ==> r == Numerals.IntToS(v.i) && Numerals.ParseInt(r) == Some(v.i)
    ensures v.Hash? ==> r == Inspection.Inspect(v)
  {
    match v
    case Nil => ""
    case Bool(b) => if b then "true" else "false"
    case Int(i) => Numerals.ParseIntToS(i); Numerals.IntToS(i)
    case Float(text) => text
    case Str(s) => s
    case Sym(name) => name
    case Hash(_) => Inspection.Inspect(v)
  }

  /** How `join` writes one element: a nested Array is joined with the same separator. */
  function JoinElement(v: Value, sep: string): string
    decreases v, 1
  {
    if v.Array? then JoinFrom(v, 0, sep) else ToS(v)
  }

  /** The join of the elements of the Array `v` from position `i` on. */
  function JoinFrom(v: Value, i: nat, sep: string): string
    requires v.Array? && i <= |v.items|
    decreases v, 0, |v.items| - i
  {
    if i == |v.items| then ""
    else (if i > 0 then sep else "") + JoinElement(v.items[i], sep) + JoinFrom(v, i + 1, sep)
  }

  /** `items.join(sep)` */
  function Join(items: seq<Value>, sep: string): string {
    JoinFrom(Array(items), 0, sep)
  }

  /** Strings laid end to end with `sep` between neighbours. */
  function Interleave(xs: seq<string>, sep: string): string {
    if |xs| == 0 then ""
    else if |xs| == 1 then xs[0]
    else xs[0] + sep + Interleave(xs[1..], sep)
  }

  function Strs(xs: seq<string>): (vs: seq<Value>)
    ensures |vs| == |xs|
    ensures forall i :: 0 <= i < |xs| ==> vs[i] == Str(xs[i])
  {
    seq(|xs|, i requires 0 <= i < |xs| => Str(xs[i]))
  }

  lemma {:induction false} JoinFromStrings(xs: seq<string>, i: nat, sep: string)
    requires 0 < i <= |xs|
    ensures JoinFrom(Array(Strs(xs)), i, sep) == if i == |xs| then "" else sep + Interleave(xs[i..], sep)
    decreases |xs| - i
  {
    if i < |xs| {
      JoinFromStrings(xs, i + 1, sep);
      assert xs[i..][1..] == xs[i + 1..];
    }
  }

  /** Joining String elements interleaves their texts with the separator. */
  lemma JoinStrings(xs: seq<string>, sep: string)
    ensures Join(Strs(xs), sep) == Interleave(xs, sep)
  {
    if |xs| > 0 {
      var v := Array(Strs(xs));
      JoinFromStrings(xs, 1, sep);
      assert v.items[0] == Str(xs[0]);
      assert JoinElement(v.items[0], sep) == xs[0];
      assert JoinFrom(v, 0, sep) == "" + xs[0] + JoinFrom(v, 1, sep);
      if |xs| > 1 {
        var tail := Interleave(xs[1..], sep);
        assert JoinFrom(v, 0, sep) == "" + xs[0] + (sep + tail);
        Prepend(xs[0], sep, tail);
      }
    }
  }

  /** How `inspect` writes one entry of a Hash whose keys and values are Strings. */
  function EntryText(p: (Value, Value)): string
    requires p.0.Str? && p.1.Str?
  {
    Inspection.InspectString(p.0.s) + "=>" + Inspection.InspectString(p.1.s)
  }

  predicate StringEntries(pairs: seq<(Value, Value)>) {
    forall i :: 0 <= i < |pairs| ==> pairs[i].0.Str? && pairs[i].1.Str?
  }

  function EntryTexts(pairs: seq<(Value, Value)>): (ts: seq<string>)
    requires StringEntries(pairs)
    ensures |ts| == |pairs|
    ensures forall i :: 0 <= i < |pairs| ==> ts[i] == EntryText(pairs[i])
  {
    seq(|pairs|, i requires 0 <= i < |pairs| => EntryText(pairs[i]))
  }

  lemma {:induction false} InspectPairsFrom(pairs: seq<(Value, Value)>, i: nat)
    requires StringEntries(pairs) && i <= |pairs|
    ensures Inspection.InspectPairs(Hash(pairs), i)
              == if i == |pairs| then "" else (if i > 0 then ", " else "") + Interleave(EntryTexts(pairs)[i..], ", ")
    decreases |pairs| - i
  {
    if i < |pairs| {
      var v, ts := Hash(pairs), EntryTexts(pairs);
      var prefix := if i > 0 then ", " else "";
      InspectPairsFrom(pairs, i + 1);
      InspectEntry(v, i);
      assert ts[i..][1..] == ts[i + 1..];
      if i + 1 == |pairs| {
        assert Interleave(ts[i..], ", ") == ts[i];
        assert Inspection.InspectPairs(v, i) == prefix + ts[i] + "";
      } else {
        var tail := Interleave(ts[i + 1..], ", ");
        assert Interleave(ts[i..], ", ") == ts[i] + ", " + tail;
        assert Inspection.InspectPairs(v, i) == prefix + ts[i] + (", " + tail);
        Regroup(prefix, ts[i], ", ", tail);
      }
    }
  }

  lemma InspectEntry(v: Value, i: nat)
    requires v.Hash? && StringEntries(v.pairs) && 0 <= i < |v.pairs|
    ensures Inspection.InspectPairs(v, i)
              == (if i > 0 then ", " else "") + EntryText(v.pairs[i]) + Inspection.InspectPairs(v, i + 1)
  {
    var p := v.pairs[i];
    var prefix := if i > 0 then ", " else "";
    var key, value := Inspection.Inspect(p.0), Inspection.Inspect(p.1);
    assert key == Inspection.InspectString(p.0.s) && value == Inspection.InspectString(p.1.s);
    var tail := Inspection.InspectPairs(v, i + 1);
    assert Inspection.InspectPairs(v, i) == prefix + key + "=>" + value + tail;
    RegroupEntry(prefix, key, value, tail);
  }

  lemma RegroupEntry(prefix: string, key: string, value: string, tail: string)
    ensures prefix + key + "=>" + value + tail == prefix + (key + "=>" + value) + tail
  {
  }

  lemma Regroup(a: string, b: string, c: string, d: string)
    ensures a + b + (c + d) == a + (b + c + d)
  {
  }

  /** `inspect` of a Hash of Strings (the form of a parsed JSON error body):
      each entry written `"key"=>"value"`, entries laid end to end with ", "
      between neighbours, inside braces. */
  lemma InspectStringHash(pairs: seq<(Value, Value)>)
    requires StringEntries(pairs)
    ensures Inspection.Inspect(Hash(pairs)) == "{" + Interleave(EntryTexts(pairs), ", ") + "}"
  {
    var v, ts := Hash(pairs), EntryTexts(pairs);
    var inner := Inspection.InspectPairs(v, 0);
    assert inner == Interleave(ts, ", ") by {
      InspectPairsFrom(pairs, 0);
      assert ts[0..] == ts;
      if |pairs| > 0 {
        assert "" + Interleave(ts, ", ") == Interleave(ts, ", ");
      }
    }
    assert Inspection.Inspect(v) == "{" + inner + "}";
  }

  lemma Prepend(a: string, b: string, c: string)
    ensures "" + a + (b + c) == a + b + c
  {
    assert "" + a == a;
  }

  /** Whether `s` contains the separator ". " that `handle_message` joins with. */
  predicate ContainsSeparator(s: string) {
    exists p :: 0 <= p < |s| - 1 && s[p] == '.' && s[p + 1] == ' '
  }

  /** The first position of ". " in `s`. */
  function FindSeparator(s: string): (r: Option<nat>)
    ensures r.Some? ==> r.value + 2 <= |s| && s[r.value] == '.' && s[r.value + 1] == ' '
    ensures r.None? <==> !ContainsSeparator(s)
  {
    if |s| < 2 then None
    else if s[0] == '.' && s[1] == ' ' then Some(0)
    else
      match FindSeparator(s[1..])
      case None =>
        assert !ContainsSeparator(s) by {
          forall p | 1 <= p < |s| - 1 ensures !(s[p] == '.' && s[p + 1] == ' ') {
            assert s[p] == s[1..][p - 1] && s[p + 1] == s[1..][p];
          }
        }
        None
      case Some(p) => Some(p + 1)
  }

  /** `s` cut at every ". ". */
  function SplitMessages(s: string): (parts: seq<string>)
    ensures |parts| >= 1
    decreases |s|
  {
    match FindSeparator(s)
    case None => [s]
    case Some(p) => [s[..p]] + SplitMessages(s[p + 2..])
  }

  lemma {:induction false} FindSeparatorAfter(x: string, rest: string)
    requires !ContainsSeparator(x)
    ensures FindSeparator(x + ". " + rest) == Some(|x|)
  {
    var s := x + ". " + rest;
    if |x| > 0 {
      assert !ContainsSeparator(x[1..]) by {
        forall p | 0 <= p < |x[1..]| - 1 ensures !(x[1..][p] == '.' && x[1..][p + 1] == ' ') {
          assert x[1..][p] == x[p + 1] && x[1..][p + 1] == x[p + 2];
        }
      }
      FindSeparatorAfter(x[1..], rest);
      assert s[1..] == x[1..] + ". " + rest;
      assert !(s[0] == '.' && s[1] == ' ') by {
        if |x| > 1 { assert s[1] == x[1]; } else { assert s[1] == '.'; }
      }
    }
  }

  /** Cutting `x + ". " + rest` gives `x` first when `x` has no separator. */
  lemma SplitStep(x: string, rest: string)
    requires !ContainsSeparator(x)
    ensures SplitMessages(x + ". " + rest) == [x] + SplitMessages(rest)
  {
    var s := x + ". " + rest;
    FindSeparatorAfter(x, rest);
    assert s[..|x|] == x;
    assert s[|x| + 2..] == rest;
  }

  /** Messages free of ". " are recovered, in order, from their joined text. */
  lemma {:induction false} SplitInterleave(xs: seq<string>)
    requires |xs| >= 1
    requires forall i :: 0 <= i < |xs| ==> !ContainsSeparator(xs[i])
    ensures SplitMessages(Interleave(xs, ". ")) == xs
  {
    if |xs| == 1 {
      assert Interleave(xs, ". ") == xs[0];
    } else {
      SplitStep(xs[0], Interleave(xs[1..], ". "));
      SplitInterleave(xs[1..]);
      assert xs == [xs[0]] + xs[1..];
    }
  }
}
