/**
 * The diagnostic text each kind of column batch renders (`toString`), as
 * pure string compositions over already-rendered child texts, and what the
 * text reveals: the counts can be read back, and the children appear in order.
 */
module Descriptions {
  import opened Numerals

  /** `<n> of <c>>`: the tail shared by every kind except struct. */
  function Counts(numElements: nat, capacity: nat): string {
    NatToString(numElements) + " of " + NatToString(capacity) + ">"
  }

  /** `r` opens with `head` and closes with ">". */
  predicate Framed(r: string, head: string) {
    |head| < |r| && r[..|head|] == head && r[|r| - 1] == '>'
  }

  /** The long batch's text: its label, then the counts. */
  function Long(numElements: nat, capacity: nat): (r: string)
    ensures Framed(r, "Long vector <")
  {
    "Long vector <" + Counts(numElements, capacity)
  }

  /** The double batch's text: its label, then the counts. */
  function Double(numElements: nat, capacity: nat): (r: string)
    ensures Framed(r, "Double vector <")
  {
    "Double vector <" + Counts(numElements, capacity)
  }

  /** The string batch's text: its label, then the counts. */
  function Bytes(numElements: nat, capacity: nat): (r: string)
    ensures Framed(r, "Byte vector <")
  {
    "Byte vector <" + Counts(numElements, capacity)
  }

  /** The decimal64 batch's text: its label (with two spaces), then the counts. */
  function Decimal64(numElements: nat, capacity: nat): (r: string)
    ensures Framed(r, "Decimal64 vector  with ")
  {
    "Decimal64 vector  with " + Counts(numElements, capacity)
  }

  /** The decimal128 batch's text: its label (with two spaces), then the counts. */
  function Decimal128(numElements: nat, capacity: nat): (r: string)
    ensures Framed(r, "Decimal128 vector  with ")
  {
    "Decimal128 vector  with " + Counts(numElements, capacity)
  }

  /** The list batch's text: its label and its elements' text, then the counts. */
  function List(elements: string, numElements: nat, capacity: nat): (r: string)
    ensures Framed(r, "List vector <" + elements)
  {
    "List vector <" + elements + " with " + Counts(numElements, capacity)
  }

  /** The map batch's text: its label, its keys' and elements' texts, then the counts. */
  function Map(keys: string, elements: string, numElements: nat, capacity: nat): (r: string)
    ensures Framed(r, "Map vector <" + keys + ", " + elements)
  {
    "Map vector <" + keys + ", " + elements + " with " + Counts(numElements, capacity)
  }

  /** The union batch's text: its label and its children's joined texts, then the counts. */
  function Union(children: seq<string>, numElements: nat, capacity: nat): (r: string)
    ensures Framed(r, "Union vector <" + Joined(children, ", "))
  {
    "Union vector <" + Joined(children, ", ") + "; with " + Counts(numElements, capacity)
  }

  function StructHead(numElements: nat, capacity: nat): string {
    "Struct vector <" + NatToString(numElements) + " of " + NatToString(capacity) + "; "
  }

  /** The struct batch's text: the header with the counts, every field's text, then ">". */
  function Struct(numElements: nat, capacity: nat, fields: seq<string>): (r: string)
    ensures Framed(r, StructHead(numElements, capacity))
  {
    StructHead(numElements, capacity) + Terminated(fields, "; ") + ">"
  }

  /** Every part followed by `sep`. */
  function Terminated(parts: seq<string>, sep: string): string {
    if parts == [] then ""
    else Terminated(parts[..|parts| - 1], sep) + parts[|parts| - 1] + sep
  }

  /** The parts with `sep` between neighbours. */
  function Joined(parts: seq<string>, sep: string): string {
    if parts == [] then ""
    else if |parts| == 1 then parts[0]
    else Joined(parts[..|parts| - 1], sep) + sep + parts[|parts| - 1]
  }

  // ----- The counts can be read back from the text -----

  /**
   * Behind a prefix that ends in a non-digit, the `<n> of <c>>` tail fixes the
   * prefix and both counts.
   */
  lemma CountsDetermined(p: string, n: nat, c: nat, p': string, n': nat, c': nat)
    requires |p| > 0 && !IsDigit(p[|p| - 1])
    requires |p'| > 0 && !IsDigit(p'[|p'| - 1])
    requires p + Counts(n, c) == p' + Counts(n', c')
    ensures p == p' && n == n' && c == c'
  {
    var a, a' := p + NatToString(n) + " of ", p' + NatToString(n') + " of ";
    var s, s' := a + NatToString(c), a' + NatToString(c');
    assert s + ">" == p + Counts(n, c);
    assert s' + ">" == p' + Counts(n', c');
    assert s == (s + ">")[..|s|];
    assert s' == (s' + ">")[..|s'|];
    DigitRunAtEnd(a, NatToString(c), a', NatToString(c'));
    assert p + NatToString(n) == a[..|a| - 4];
    assert p' + NatToString(n') == a'[..|a'| - 4];
    DigitRunAtEnd(p, NatToString(n), p', NatToString(n'));
    NatToStringInjective(n, n');
    NatToStringInjective(c, c');
  }

  lemma LongDetermined(n: nat, c: nat, n': nat, c': nat)
    requires Long(n, c) == Long(n', c')
    ensures n == n' && c == c'
  {
    CountsDetermined("Long vector <", n, c, "Long vector <", n', c');
  }

  lemma DoubleDetermined(n: nat, c: nat, n': nat, c': nat)
    requires Double(n, c) == Double(n', c')
    ensures n == n' && c == c'
  {
    CountsDetermined("Double vector <", n, c, "Double vector <", n', c');
  }

  lemma BytesDetermined(n: nat, c: nat, n': nat, c': nat)
    requires Bytes(n, c) == Bytes(n', c')
    ensures n == n' && c == c'
  {
    CountsDetermined("Byte vector <", n, c, "Byte vector <", n', c');
  }

  lemma Decimal64Determined(n: nat, c: nat, n': nat, c': nat)
    requires Decimal64(n, c) == Decimal64(n', c')
    ensures n == n' && c == c'
  {
    CountsDetermined("Decimal64 vector  with ", n, c, "Decimal64 vector  with ", n', c');
  }

  lemma Decimal128Determined(n: nat, c: nat, n': nat, c': nat)
    requires Decimal128(n, c) == Decimal128(n', c')
    ensures n == n' && c == c'
  {
    CountsDetermined("Decimal128 vector  with ", n, c, "Decimal128 vector  with ", n', c');
  }

  /** A list's text gives back the elements' text and both counts. */
  lemma ListDetermined(e: string, n: nat, c: nat, e': string, n': nat, c': nat)
    requires List(e, n, c) == List(e', n', c')
    ensures e == e' && n == n' && c == c'
  {
    var p, p' := "List vector <" + e + " with ", "List vector <" + e' + " with ";
    CountsDetermined(p, n, c, p', n', c');
    assert e == p[13..|p| - 6];
    assert e' == p'[13..|p'| - 6];
  }

  /** The map text, split before the counts. */
  lemma MapShape(k: string, e: string, n: nat, c: nat)
    ensures Map(k, e, n, c) == "Map vector <" + ((k + ", " + e) + " with ") + Counts(n, c)
  {
  }

  /** A map's text gives back the keys-and-elements text and both counts. */
  lemma MapDetermined(k: string, e: string, n: nat, c: nat, k': string, e': string, n': nat, c': nat)
    requires Map(k, e, n, c) == Map(k', e', n', c')
    ensures k + ", " + e == k' + ", " + e' && n == n' && c == c'
  {
    var x, x' := k + ", " + e, k' + ", " + e';
    var p, p' := "Map vector <" + (x + " with "), "Map vector <" + (x' + " with ");
    MapShape(k, e, n, c);
    MapShape(k', e', n', c');
    CountsDetermined(p, n, c, p', n', c');
    SamePrefixRest("Map vector <", x + " with ", x' + " with ");
    assert x == (x + " with ")[..|x|];
    assert x' == (x' + " with ")[..|x'|];
  }

  /** A union's text gives back its children's joined texts and both counts. */
  lemma UnionDetermined(cs: seq<string>, n: nat, c: nat, cs': seq<string>, n': nat, c': nat)
    requires Union(cs, n, c) == Union(cs', n', c')
    ensures Joined(cs, ", ") == Joined(cs', ", ") && n == n' && c == c'
  {
    var j, j' := Joined(cs, ", "), Joined(cs', ", ");
    var p, p' := "Union vector <" + j + "; with ", "Union vector <" + j' + "; with ";
    CountsDetermined(p, n, c, p', n', c');
    assert j == p[14..|p| - 7];
    assert j' == p'[14..|p'| - 7];
  }

  lemma SamePrefixRest(p: string, x: string, y: string)
    requires p + x == p + y
    ensures x == y
  {
    assert x == (p + x)[|p|..];
    assert y == (p + y)[|p|..];
  }

  /** The struct text, associated to the right. */
  lemma StructShape(n: nat, c: nat, fs: seq<string>)
    ensures Struct(n, c, fs)
         == "Struct vector <" + (NatToString(n) + (" of " + (NatToString(c) + ("; " + (Terminated(fs, "; ") + ">")))))
  {
  }

  /** A struct's text gives back both counts and its fields' texts. */
  lemma StructDetermined(n: nat, c: nat, fs: seq<string>, n': nat, c': nat, fs': seq<string>)
    requires Struct(n, c, fs) == Struct(n', c', fs')
    ensures n == n' && c == c' && Terminated(fs, "; ") == Terminated(fs', "; ")
  {
    var t, t' := Terminated(fs, "; "), Terminated(fs', "; ");
    var b, b' := "; " + (t + ">"), "; " + (t' + ">");
    var r, r' := NatToString(c) + b, NatToString(c') + b';
    StructShape(n, c, fs);
    StructShape(n', c', fs');
    SamePrefixRest("Struct vector <", NatToString(n) + (" of " + r), NatToString(n') + (" of " + r'));
    DigitRunAtStart(NatToString(n), " of " + r, NatToString(n'), " of " + r');
    SamePrefixRest(" of ", r, r');
    DigitRunAtStart(NatToString(c), b, NatToString(c'), b');
    SamePrefixRest("; ", t + ">", t' + ">");
    assert t == (t + ">")[..|t|];
    assert t' == (t' + ">")[..|t'|];
    NatToStringInjective(n, n');
    NatToStringInjective(c, c');
  }

  // ----- Children appear in order -----

  lemma {:induction false} TerminatedAppend(xs: seq<string>, ys: seq<string>, sep: string)
    ensures Terminated(xs + ys, sep) == Terminated(xs, sep) + Terminated(ys, sep)
    decreases |ys|
  {
    if ys != [] {
      var zs := xs + ys;
      assert zs[..|zs| - 1] == xs + ys[..|ys| - 1];
      TerminatedAppend(xs, ys[..|ys| - 1], sep);
    } else {
      assert xs + ys == xs;
    }
  }

  /** Part `i` comes right after the parts before it and right before the parts after it. */
  lemma TerminatedSplit(parts: seq<string>, sep: string, i: nat)
    requires i < |parts|
    ensures Terminated(parts, sep)
         == Terminated(parts[..i], sep) + parts[i] + sep + Terminated(parts[i + 1..], sep)
  {
    assert parts == parts[..i] + ([parts[i]] + parts[i + 1..]);
    TerminatedAppend(parts[..i], [parts[i]] + parts[i + 1..], sep);
    TerminatedAppend([parts[i]], parts[i + 1..], sep);
    assert Terminated([parts[i]], sep) == Terminated([], sep) + parts[i] + sep;
  }

  /** A buffer holding `pre` and the first `i` parts, terminated, with part `i` appended. */
  lemma TerminatedStep(pre: string, parts: seq<string>, i: nat, sep: string)
    requires i < |parts|
    ensures pre + Terminated(parts[..i + 1], sep) == pre + Terminated(parts[..i], sep) + parts[i] + sep
  {
    assert parts[..i + 1][..i] == parts[..i];
  }

  /** A buffer holding `pre` with the first part appended holds `pre` and that part, joined. */
  lemma JoinedFirst(pre: string, parts: seq<string>, sep: string)
    requires 0 < |parts|
    ensures pre + Joined(parts[..1], sep) == pre + parts[0]
  {
    assert parts[..1] == [parts[0]];
  }

  /** A buffer holding `pre` and the first `i` parts, joined, then `sep` and part `i`. */
  lemma JoinedNext(pre: string, parts: seq<string>, i: nat, sep: string)
    requires 0 < i < |parts|
    ensures pre + Joined(parts[..i + 1], sep) == pre + Joined(parts[..i], sep) + sep + parts[i]
  {
    assert parts[..i + 1][..i] == parts[..i];
  }

  /** The loop that appends every part followed by `sep`. */
  method AppendTerminated(pre: string, parts: seq<string>, sep: string) returns (s: string)
    ensures s == pre + Terminated(parts, sep)
  {
    s := pre;
    for i := 0 to |parts|
      invariant s == pre + Terminated(parts[..i], sep)
    {
      TerminatedStep(pre, parts, i, sep);
      s := s + parts[i] + sep;
    }
    assert parts[..|parts|] == parts;
  }

  /** The loop that appends the parts, with `sep` before every part but the first. */
  method AppendJoined(pre: string, parts: seq<string>, sep: string) returns (s: string)
    ensures s == pre + Joined(parts, sep)
  {
    s := pre;
    for i := 0 to |parts|
      invariant s == pre + Joined(parts[..i], sep)
    {
      if i == 0 {
        JoinedFirst(pre, parts, sep);
      } else {
        JoinedNext(pre, parts, i, sep);
        s := s + sep;
      }
      s := s + parts[i];
    }
    assert parts[..|parts|] == parts;
  }

  /** Joining is terminating every part but the last, then the last one. */
  lemma {:induction false} JoinedAsTerminated(parts: seq<string>, sep: string)
    requires parts != []
    ensures Joined(parts, sep) == Terminated(parts[..|parts| - 1], sep) + parts[|parts| - 1]
    decreases |parts|
  {
    var m := |parts|;
    if m > 1 {
      var init := parts[..m - 1];
      JoinedAsTerminated(init, sep);
      assert init[..|init| - 1] == parts[..m - 2];
      assert Terminated(init, sep) == Terminated(parts[..m - 2], sep) + parts[m - 2] + sep;
    } else {
      assert parts[..0] == [];
    }
  }

  /**
   * Field `i`'s text sits between the struct header with the earlier fields
   * and the later fields, each field followed by "; ".
   */
  lemma StructFieldsInOrder(n: nat, c: nat, fields: seq<string>, i: nat)
    requires i < |fields|
    ensures Struct(n, c, fields)
         == StructHead(n, c) + Terminated(fields[..i], "; ") + fields[i] + "; "
            + Terminated(fields[i + 1..], "; ") + ">"
  {
    TerminatedSplit(fields, "; ", i);
  }

  /** Four texts concatenated, regrouped to the right after the first. */
  lemma Regroup(x: string, sep: string, y: string, z: string)
    ensures x + sep + y + z == x + (sep + (y + z))
  {
  }

  /** Part `i` of a joined text, when later parts follow it. */
  lemma JoinedSplitInner(parts: seq<string>, sep: string, i: nat)
    requires i + 1 < |parts|
    ensures Joined(parts, sep)
         == Terminated(parts[..i], sep) + parts[i] + (sep + Joined(parts[i + 1..], sep))
  {
    var m := |parts|;
    var init, rest := parts[..m - 1], parts[i + 1..];
    JoinedAsTerminated(parts, sep);
    TerminatedSplit(init, sep, i);
    assert init[..i] == parts[..i];
    assert init[i + 1..] == rest[..|rest| - 1];
    JoinedAsTerminated(rest, sep);
    Regroup(Terminated(parts[..i], sep) + parts[i], sep, Terminated(rest[..|rest| - 1], sep), parts[m - 1]);
  }

  /**
   * Part `i` of a joined text follows the earlier parts, each followed by
   * `sep`, and precedes `sep` and the later parts when there are any.
   */
  lemma JoinedSplit(parts: seq<string>, sep: string, i: nat)
    requires i < |parts|
    ensures Joined(parts, sep)
         == Terminated(parts[..i], sep) + parts[i]
            + (if i + 1 < |parts| then sep + Joined(parts[i + 1..], sep) else "")
  {
    if i + 1 < |parts| {
      JoinedSplitInner(parts, sep, i);
    } else {
      JoinedAsTerminated(parts, sep);
      assert parts[..|parts| - 1] == parts[..i];
    }
  }

  /**
   * Child `i`'s text follows the earlier children, each followed by ", ", and
   * precedes ", " and the later children when there are any.
   */
  lemma UnionChildrenInOrder(cs: seq<string>, n: nat, c: nat, i: nat)
    requires i < |cs|
    ensures Union(cs, n, c)
         == "Union vector <" + Terminated(cs[..i], ", ") + cs[i]
            + (if i + 1 < |cs| then ", " + Joined(cs[i + 1..], ", ") else "")
            + "; with " + Counts(n, c)
  {
    JoinedSplit(cs, ", ", i);
  }
}
