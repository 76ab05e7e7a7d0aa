/** The value of the `-e` option of `parse_option` (import.rb:96-111): a comma-separated list
    of pieces. A piece holding a digit, a hyphen and a digit sets the event list to that
    range, dropping what came before; any other piece is appended as it is, a string. */
module EventExpression {
  import opened Basics

  /** An element of `Options[:events]`: an integer from a range, or a piece kept as a string. */
  datatype EventKey = Num(n: int) | Str(s: string)

  /** The script prints its message and exits. */
  datatype ParseError = IllegalCharacter

  predicate IsDigit(c: char) {
    '0' <= c <= '9'
  }

  /** The characters `/[^0-9\,\-]/` does not match. */
  predicate Allowed(c: char) {
    IsDigit(c) || c == ',' || c == '-'
  }

  /** `val =~ /[^0-9\,\-]/`: the index of the first character that is not a digit, a comma
      or a hyphen, or None (Ruby's nil) when there is none. */
  function FirstIllegal(val: string): (r: Option<nat>)
    ensures r.None? <==> forall i :: 0 <= i < |val| ==> Allowed(val[i])
    ensures r.Some? ==> r.value < |val| && !Allowed(val[r.value])
    ensures r.Some? ==> forall j :: 0 <= j < r.value ==> Allowed(val[j])
  {
    if val == [] then None
    else if !Allowed(val[0]) then Some(0)
    else
      assert forall j :: 0 <= j < |val[1..]| ==> val[1..][j] == val[j + 1];
      match FirstIllegal(val[1..])
      case None => None
      case Some(k) => Some(k + 1)
  }

  function DigitValue(c: char): (d: int)
    requires IsDigit(c)
    ensures 0 <= d <= 9
  {
    c as int - '0' as int
  }

  /** Every comma-separated field of `s`, empty ones included. */
  function Fields(s: string): (r: seq<string>)
    ensures |r| >= 1
    ensures forall k :: 0 <= k < |r| ==> ',' !in r[k]
  {
    if s == [] then [""]
    else if s[0] == ',' then [""] + Fields(s[1..])
    else
      var rest := Fields(s[1..]);
      [[s[0]] + rest[0]] + rest[1..]
  }

  /** The fields joined back with commas. */
  function Join(fs: seq<string>): string
    requires |fs| >= 1
  {
    if |fs| == 1 then fs[0] else fs[0] + "," + Join(fs[1..])
  }

  lemma {:induction false} JoinConsFirst(c: char, fs: seq<string>)
    requires |fs| >= 1
    ensures Join([[c] + fs[0]] + fs[1..]) == [c] + Join(fs)
  {
    var gs := [[c] + fs[0]] + fs[1..];
    if |fs| > 1 {
      assert gs[1..] == fs[1..];
    }
  }

  /** Splitting then joining gives the string back. */
  lemma {:induction false} JoinFields(s: string)
    ensures Join(Fields(s)) == s
  {
    if s != [] {
      JoinFields(s[1..]);
      if s[0] == ',' {
        assert Fields(s) == [""] + Fields(s[1..]);
        assert Fields(s)[1..] == Fields(s[1..]);
      } else {
        JoinConsFirst(s[0], Fields(s[1..]));
      }
      assert s == [s[0]] + s[1..];
    }
  }

  lemma {:induction false} FieldsOfPiece(p: string, rest: seq<string>)
    requires ',' !in p
    requires |rest| >= 1
    ensures Fields(p + "," + Join(rest)) == [p] + Fields(Join(rest))
  {
    if p != [] {
      assert (p + "," + Join(rest))[1..] == p[1..] + "," + Join(rest);
      FieldsOfPiece(p[1..], rest);
      assert [p[0]] + p[1..] == p;
    } else {
      assert p + "," + Join(rest) == "," + Join(rest);
      assert ("," + Join(rest))[1..] == Join(rest);
    }
  }

  lemma {:induction false} FieldsOfSingle(p: string)
    requires ',' !in p
    ensures Fields(p) == [p]
  {
    if p != [] {
      FieldsOfSingle(p[1..]);
      assert [p[0]] + p[1..] == p;
    }
  }

  /** Joining comma-free pieces then splitting gives the pieces back. */
  lemma {:induction false} FieldsJoin(fs: seq<string>)
    requires |fs| >= 1
    requires forall k :: 0 <= k < |fs| ==> ',' !in fs[k]
    ensures Fields(Join(fs)) == fs
  {
    if |fs| == 1 {
      FieldsOfSingle(fs[0]);
    } else {
      FieldsJoin(fs[1..]);
      FieldsOfPiece(fs[0], fs[1..]);
      assert [fs[0]] + fs[1..] == fs;
    }
  }

  /** Drops the empty strings at the end. */
  function DropTrailingEmpty(fs: seq<string>): (r: seq<string>)
    ensures |r| <= |fs| && r == fs[..|r|]
    ensures forall k :: |r| <= k < |fs| ==> fs[k] == ""
    ensures r == [] || r[|r| - 1] != ""
  {
    if fs == [] || fs[|fs| - 1] != "" then fs
    else DropTrailingEmpty(fs[..|fs| - 1])
  }

  /** `val.split(",")`: the comma-separated fields, without the empty ones at the end. No
      piece holds a comma, the last one is not empty, and only empty fields are dropped. */
  function RubySplit(s: string): (r: seq<string>)
    ensures forall k :: 0 <= k < |r| ==> ',' !in r[k]
    ensures r == [] || r[|r| - 1] != ""
    ensures |r| <= |Fields(s)| && r == Fields(s)[..|r|]
    ensures forall k :: |r| <= k < |Fields(s)| ==> Fields(s)[k] == ""
  {
    DropTrailingEmpty(Fields(s))
  }

  /** `(\d)-(\d)` matches `p` at offset `i`. */
  predicate RangeAt(p: string, i: nat)
    requires i + 3 <= |p|
  {
    IsDigit(p[i]) && p[i + 1] == '-' && IsDigit(p[i + 2])
  }

  /** The leftmost match of `(\d)-(\d)` in `p` from offset `i` on, as `($1.to_i, $2.to_i)`:
      both bounds are single digits. */
  function FindRangeFrom(p: string, i: nat): (r: Option<(int, int)>)
    ensures r.Some? ==> 0 <= r.value.0 <= 9 && 0 <= r.value.1 <= 9
    decreases |p| - i
  {
    if i + 3 > |p| then None
    else if RangeAt(p, i) then Some((DigitValue(p[i]), DigitValue(p[i + 2])))
    else FindRangeFrom(p, i + 1)
  }

  /** `exp =~ /(\d)-(\d)/` on a whole piece. */
  function FindRange(p: string): (r: Option<(int, int)>)
    ensures r.Some? ==> 0 <= r.value.0 <= 9 && 0 <= r.value.1 <= 9
  {
    FindRangeFrom(p, 0)
  }

  /** The search returns the digits of the leftmost match, and nothing when there is none. */
  lemma {:induction false} FindRangeFromCorrect(p: string, i: nat)
    ensures FindRangeFrom(p, i).None? <==> forall j: nat :: i <= j && j + 3 <= |p| ==> !RangeAt(p, j)
    ensures FindRangeFrom(p, i).Some? ==>
      exists j: nat :: i <= j && j + 3 <= |p| && RangeAt(p, j)
        && (forall m: nat :: i <= m < j ==> !RangeAt(p, m))
        && FindRangeFrom(p, i).value == (DigitValue(p[j]), DigitValue(p[j + 2]))
    decreases |p| - i
  {
    if i + 3 <= |p| && RangeAt(p, i) {
      assert FindRangeFrom(p, i).value == (DigitValue(p[i]), DigitValue(p[i + 2]));
    } else if i + 3 <= |p| {
      FindRangeFromCorrect(p, i + 1);
      if FindRangeFrom(p, i).Some? {
        var j: nat :| i + 1 <= j && j + 3 <= |p| && RangeAt(p, j)
          && (forall m: nat :: i + 1 <= m < j ==> !RangeAt(p, m))
          && FindRangeFrom(p, i + 1).value == (DigitValue(p[j]), DigitValue(p[j + 2]));
        assert forall m: nat :: i <= m < j ==> !RangeAt(p, m);
      }
    }
  }

  lemma FindRangeCorrect(p: string)
    ensures FindRange(p).None? <==> forall j: nat :: j + 3 <= |p| ==> !RangeAt(p, j)
    ensures FindRange(p).Some? ==>
      exists j: nat :: j + 3 <= |p| && RangeAt(p, j)
        && (forall m: nat :: m < j ==> !RangeAt(p, m))
        && FindRange(p).value == (DigitValue(p[j]), DigitValue(p[j + 2]))
  {
    FindRangeFromCorrect(p, 0);
  }

  /** `Range.new(a, b).to_a`: a, a + 1, ..., b; empty when a > b. */
  function Range(a: int, b: int): (r: seq<int>)
    ensures |r| == if a <= b then b - a + 1 else 0
    ensures forall k :: 0 <= k < |r| ==> r[k] == a + k
    decreases b - a
  {
    if a > b then [] else [a] + Range(a + 1, b)
  }

  function Nums(r: seq<int>): seq<EventKey> {
    seq(|r|, k requires 0 <= k < |r| => Num(r[k]))
  }

  function Strs(ps: seq<string>): seq<EventKey> {
    seq(|ps|, k requires 0 <= k < |ps| => Str(ps[k]))
  }

  /** The keys a range piece sets the list to. */
  function RangeKeys(p: string): seq<EventKey>
    requires FindRange(p).Some?
  {
    Nums(Range(FindRange(p).value.0, FindRange(p).value.1))
  }

  /** The index of the last range piece, or -1 when there is none. */
  function LastRange(ps: seq<string>): (j: int)
    ensures -1 <= j < |ps|
    ensures j >= 0 ==> FindRange(ps[j]).Some?
    ensures forall m :: j < m < |ps| ==> FindRange(ps[m]).None?
  {
    if ps == [] then -1
    else if FindRange(ps[|ps| - 1]).Some? then |ps| - 1
    else LastRange(ps[..|ps| - 1])
  }

  /** The event list the pieces give, stated without the loop: only the last range piece
      counts, followed by the later pieces as strings; with no range piece, every piece as a
      string. */
  function Events(ps: seq<string>): seq<EventKey> {
    var j := LastRange(ps);
    if j < 0 then Strs(ps) else RangeKeys(ps[j]) + Strs(ps[j + 1..])
  }

  /** Every number the pieces name is a single digit and every string is one of the pieces. */
  lemma EventsMembers(ps: seq<string>)
    ensures forall k :: 0 <= k < |Events(ps)| && Events(ps)[k].Num? ==> 0 <= Events(ps)[k].n <= 9
    ensures forall k :: 0 <= k < |Events(ps)| && Events(ps)[k].Str? ==> Events(ps)[k].s in ps
  {
    var j := LastRange(ps);
    if j < 0 {
      StrsMembers(ps, ps);
    } else {
      var head, tail := RangeKeys(ps[j]), ps[j + 1..];
      SuffixMembers(ps, j + 1);
      RangeKeysDigits(ps[j]);
      StrsMembers(tail, ps);
      ConcatMembers(head, Strs(tail), ps, Events(ps));
    }
  }

  lemma SuffixMembers(ps: seq<string>, i: nat)
    requires i <= |ps|
    ensures forall q :: q in ps[i..] ==> q in ps
  {
    forall q | q in ps[i..] ensures q in ps {
      var k :| 0 <= k < |ps[i..]| && ps[i..][k] == q;
      assert ps[i + k] == q;
    }
  }

  lemma RangeKeysDigits(p: string)
    requires FindRange(p).Some?
    ensures forall k :: 0 <= k < |RangeKeys(p)| ==> RangeKeys(p)[k].Num? && 0 <= RangeKeys(p)[k].n <= 9
  {
  }

  lemma StrsMembers(qs: seq<string>, ps: seq<string>)
    requires forall q :: q in qs ==> q in ps
    ensures forall k :: 0 <= k < |Strs(qs)| ==> Strs(qs)[k].Str? && Strs(qs)[k].s in ps
  {
    forall k | 0 <= k < |Strs(qs)| ensures Strs(qs)[k].s in ps {
      assert qs[k] in qs;
    }
  }

  lemma ConcatMembers(head: seq<EventKey>, rest: seq<EventKey>, ps: seq<string>, r: seq<EventKey>)
    requires r == head + rest
    requires forall k :: 0 <= k < |head| ==> head[k].Num? && 0 <= head[k].n <= 9
    requires forall k :: 0 <= k < |rest| ==> rest[k].Str? && rest[k].s in ps
    ensures forall k :: 0 <= k < |r| && r[k].Num? ==> 0 <= r[k].n <= 9
    ensures forall k :: 0 <= k < |r| && r[k].Str? ==> r[k].s in ps
  {
    forall k | 0 <= k < |r|
      ensures r[k] == if k < |head| then head[k] else rest[k - |head|]
    {
    }
  }

  /** One turn of the loop at import.rb:103-109. */
  function Step(numbers: seq<EventKey>, exp: string): seq<EventKey> {
    match FindRange(exp)
    case Some((a, b)) => Nums(Range(a, b))
    case None => numbers + [Str(exp)]
  }

  /** A piece without a range is appended and keeps the list before it; a range piece sets
      the list to the keys of its own range, at most ten single-digit numbers, whatever the
      list held before. */
  lemma StepCases(numbers: seq<EventKey>, exp: string)
    ensures FindRange(exp).None? ==>
              |Step(numbers, exp)| == |numbers| + 1 && Step(numbers, exp)[..|numbers|] == numbers
              && Step(numbers, exp)[|numbers|] == Str(exp)
    ensures FindRange(exp).Some? ==>
              |Step(numbers, exp)| <= 10 && forall k :: 0 <= k < |Step(numbers, exp)| ==>
                Step(numbers, exp)[k].Num? && 0 <= Step(numbers, exp)[k].n <= 9
    ensures FindRange(exp).Some? ==> Step(numbers, exp) == Step([], exp) == RangeKeys(exp)
  {
  }

  /** Handling one more piece, as the loop does, keeps the list equal to Events. */
  lemma EventsAppend(ps: seq<string>, p: string)
    ensures Events(ps + [p]) == Step(Events(ps), p)
  {
    var qs := ps + [p];
    assert qs[..|qs| - 1] == ps;
    if FindRange(p).None? {
      var j := LastRange(ps);
      assert LastRange(qs) == j;
      if j < 0 {
        assert Strs(qs) == Strs(ps) + [Str(p)];
      } else {
        assert qs[j + 1..] == ps[j + 1..] + [p];
        assert Strs(qs[j + 1..]) == Strs(ps[j + 1..]) + [Str(p)];
      }
    } else {
      assert Strs(qs[|ps| + 1..]) == [];
    }
  }

  /** The events of one more piece are one more turn of the loop. */
  lemma EventsPrefixStep(pieces: seq<string>, i: nat)
    requires i < |pieces|
    ensures Events(pieces[..i + 1]) == Step(Events(pieces[..i]), pieces[i])
  {
    EventsAppend(pieces[..i], pieces[i]);
    assert pieces[..i + 1] == pieces[..i] + [pieces[i]];
  }

  /** The `-e` block: rejects the value when it holds a character other than a digit, a comma
      or a hyphen, before splitting; otherwise handles the pieces of `val.split(",")` in turn. */
  method ParseEvents(val: string) returns (r: Result<seq<EventKey>, ParseError>)
    ensures r.Failure? <==> exists i :: 0 <= i < |val| && !Allowed(val[i])
    ensures r.Success? ==> r.value == Events(RubySplit(val))
  {
    if FirstIllegal(val).Some? {
      assert !Allowed(val[FirstIllegal(val).value]);
      return Failure(IllegalCharacter);
    }
    var pieces := RubySplit(val);
    var numbers: seq<EventKey> := [];
    var i := 0;
    while i < |pieces|
      invariant 0 <= i <= |pieces|
      invariant numbers == Events(pieces[..i])
    {
      var exp := pieces[i];
      match FindRange(exp) {
        case Some((a, b)) =>
          numbers := Nums(Range(a, b));
        case None =>
          numbers := numbers + [Str(exp)];
      }
      EventsPrefixStep(pieces, i);
      i := i + 1;
    }
    assert pieces[..|pieces|] == pieces;
    return Success(numbers);
  }

  /** The fields of a string that lacks a character lack it too. */
  lemma {:induction false} FieldsChars(s: string, c: char)
    requires c !in s
    ensures forall k :: 0 <= k < |Fields(s)| ==> c !in Fields(s)[k]
  {
    if s != [] {
      assert s == [s[0]] + s[1..];
      FieldsChars(s[1..], c);
      var rest := Fields(s[1..]);
      if s[0] != ',' {
        assert Fields(s) == [[s[0]] + rest[0]] + rest[1..];
        assert forall k :: 1 <= k < |Fields(s)| ==> Fields(s)[k] == rest[k];
      } else {
        assert forall k :: 1 <= k < |Fields(s)| ==> Fields(s)[k] == rest[k - 1];
      }
    }
  }

  lemma NoHyphenNoRange(p: string)
    requires '-' !in p
    ensures FindRange(p).None?
  {
    FindRangeCorrect(p);
    forall j: nat | j + 3 <= |p| ensures !RangeAt(p, j) {
      assert p[j + 1] in p;
    }
  }

  /** A value without a hyphen holds no range piece, so every event it names is a string,
      and a string selects no record. */
  lemma NoHyphenOnlyStrings(val: string)
    requires '-' !in val
    ensures forall k :: 0 <= k < |Events(RubySplit(val))| ==> Events(RubySplit(val))[k].Str?
  {
    var ps := RubySplit(val);
    FieldsChars(val, '-');
    forall k | 0 <= k < |ps| ensures FindRange(ps[k]).None? {
      assert ps[k] == Fields(val)[k];
      NoHyphenNoRange(ps[k]);
    }
    assert LastRange(ps) < 0;
  }

  /** A range piece discards every piece before it: the parse of the whole list depends
      only on that piece and the pieces after it. */
  lemma {:induction false} RangeResets(ps: seq<string>, p: string, qs: seq<string>)
    requires FindRange(p).Some?
    ensures Events(ps + [p] + qs) == Events([p] + qs)
    decreases |qs|
  {
    if qs == [] {
      assert ps + [p] + qs == ps + [p];
      assert [p] + qs == [] + [p];
      EventsAppend(ps, p);
      EventsAppend([], p);
    } else {
      var init, q := qs[..|qs| - 1], qs[|qs| - 1];
      RangeResets(ps, p, init);
      assert ps + [p] + qs == (ps + [p] + init) + [q];
      assert [p] + qs == ([p] + init) + [q];
      EventsAppend(ps + [p] + init, q);
      EventsAppend([p] + init, q);
    }
  }

  /** "1,3-5" selects events 3, 4 and 5: the range replaces the "1" before it. */
  lemma ExampleRangeReplaces()
    ensures Events(RubySplit("1,3-5")) == [Num(3), Num(4), Num(5)]
  {
    assert Join(["1", "3-5"]) == "1,3-5";
    FieldsJoin(["1", "3-5"]);
    assert RubySplit("1,3-5") == ["1"] + ["3-5"] + [];
    assert RangeAt("3-5", 0);
    assert FindRange("3-5") == Some((3, 5));
    RangeResets(["1"], "3-5", []);
    assert LastRange(["3-5"]) == 0;
    assert Range(3, 5) == [3, 4, 5];
  }

  /** "12-15" is read at its first digit-hyphen-digit, "2-1", an empty range. */
  lemma ExampleMultiDigit()
    ensures Events(RubySplit("12-15")) == []
  {
    FieldsOfSingle("12-15");
    assert !RangeAt("12-15", 0) && RangeAt("12-15", 1);
    assert FindRange("12-15") == Some((2, 1));
  }

  /** "3" gives the string "3", not the number 3; trailing commas add nothing. */
  lemma ExampleSingleNumber()
    ensures Events(RubySplit("3,,")) == [Str("3")]
  {
    assert Join(["3", "", ""]) == "3,,";
    FieldsJoin(["3", "", ""]);
    assert DropTrailingEmpty(["3", "", ""]) == DropTrailingEmpty(["3", ""]);
    assert DropTrailingEmpty(["3", ""]) == DropTrailingEmpty(["3"]);
    assert FindRange("3").None?;
  }
}
