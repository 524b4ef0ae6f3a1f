/**
 * The request-time scan of a load generator's simulation log: each line mentioning
 * REQUEST is split into whitespace-separated fields, two of them are read as integers,
 * and the smallest start and largest end are kept.
 */
module SimulationLog {
  import opened Wrappers

  /** The characters `str.split()` treats as separators, restricted to ASCII. */
  predicate IsSpace(c: char) {
    c == ' ' || ('\U{0009}' <= c <= '\U{000D}') || ('\U{001C}' <= c <= '\U{001F}')
  }

  /** A non-empty run of non-separator characters. */
  ghost predicate IsToken(t: string) {
    t != [] && forall i :: 0 <= i < |t| ==> !IsSpace(t[i])
  }

  /** The fields of `s`, where `cur` is the part of a field already read. */
  function Tokens(s: string, cur: string): seq<string>
    decreases |s|
  {
    if s == [] then (if cur == [] then [] else [cur])
    else if IsSpace(s[0]) then (if cur == [] then [] else [cur]) + Tokens(s[1..], [])
    else Tokens(s[1..], cur + [s[0]])
  }

  /** `line.split()`. */
  function Split(s: string): seq<string> {
    Tokens(s, [])
  }

  /** The characters of `s` that are not separators, in order. */
  function NonSpace(s: string): string
    decreases |s|
  {
    if s == [] then [] else (if IsSpace(s[0]) then [] else [s[0]]) + NonSpace(s[1..])
  }

  function Concat(ts: seq<string>): string
    decreases |ts|
  {
    if ts == [] then [] else ts[0] + Concat(ts[1..])
  }

  /** `' '.join(ts)`. */
  function Join(ts: seq<string>): string
    decreases |ts|
  {
    if ts == [] then [] else if |ts| == 1 then ts[0] else ts[0] + " " + Join(ts[1..])
  }

  lemma {:induction false} TokensFacts(s: string, cur: string)
    requires forall i :: 0 <= i < |cur| ==> !IsSpace(cur[i])
    ensures forall k :: 0 <= k < |Tokens(s, cur)| ==> IsToken(Tokens(s, cur)[k])
    ensures Concat(Tokens(s, cur)) == cur + NonSpace(s)
    decreases |s|
  {
    if s == [] {
      assert cur + [] == cur;
      if cur != [] {
        assert Concat([cur]) == cur + Concat([]);
      }
    } else if IsSpace(s[0]) {
      TokensFacts(s[1..], []);
      var rest := Tokens(s[1..], []);
      if cur != [] {
        assert ([cur] + rest)[1..] == rest;
        assert Concat([cur] + rest) == cur + Concat(rest);
      } else {
        assert [] + rest == rest;
      }
    } else {
      TokensFacts(s[1..], cur + [s[0]]);
      assert cur + [s[0]] + NonSpace(s[1..]) == cur + NonSpace(s);
    }
  }

  /** `split()` yields non-empty fields free of separators, and drops exactly the separators. */
  lemma SplitFacts(s: string)
    ensures forall k :: 0 <= k < |Split(s)| ==> IsToken(Split(s)[k])
    ensures Concat(Split(s)) == NonSpace(s)
  {
    TokensFacts(s, []);
  }

  lemma {:induction false} TokensWord(w: string, rest: string, cur: string)
    requires forall i :: 0 <= i < |w| ==> !IsSpace(w[i])
    ensures Tokens(w + rest, cur) == Tokens(rest, cur + w)
    decreases |w|
  {
    if w == [] {
      assert [] + rest == rest && cur + [] == cur;
    } else {
      assert (w + rest)[0] == w[0] && (w + rest)[1..] == w[1..] + rest;
      TokensWord(w[1..], rest, cur + [w[0]]);
      assert cur + [w[0]] + w[1..] == cur + w;
    }
  }

  /** Splitting fields joined by single spaces gives the fields back. */
  lemma {:induction false} SplitJoin(ts: seq<string>)
    requires forall k :: 0 <= k < |ts| ==> IsToken(ts[k])
    ensures Split(Join(ts)) == ts
    decreases |ts|
  {
    if |ts| == 1 {
      TokensWord(ts[0], [], []);
      assert ts[0] + [] == ts[0] && [] + ts[0] == ts[0];
    } else if |ts| > 1 {
      SplitJoin(ts[1..]);
      TokensWord(ts[0], " " + Join(ts[1..]), []);
      assert [] + ts[0] == ts[0];
      assert (" " + Join(ts[1..]))[1..] == Join(ts[1..]);
      assert ts[0] + " " + Join(ts[1..]) == ts[0] + (" " + Join(ts[1..]));
      assert ts == [ts[0]] + ts[1..];
    }
  }

  predicate IsDigit(c: char) {
    '0' <= c <= '9'
  }

  function DigitValue(c: char): nat
    requires IsDigit(c)
  {
    c as int - '0' as int
  }

  /** The value of a string of decimal digits. */
  function DigitsValue(ds: string): nat
    requires forall i :: 0 <= i < |ds| ==> IsDigit(ds[i])
    decreases |ds|
  {
    if ds == [] then 0 else DigitsValue(ds[..|ds| - 1]) * 10 + DigitValue(ds[|ds| - 1])
  }

  predicate AllDigits(ds: string) {
    forall i :: 0 <= i < |ds| ==> IsDigit(ds[i])
  }

  /** The token without its sign, if it has one. */
  function Unsigned(t: string): string {
    if t != [] && (t[0] == '+' || t[0] == '-') then t[1..] else t
  }

  /** What this model accepts as `int(token)`: an optional sign followed by one or more ASCII digits. */
  ghost predicate IsIntLiteral(t: string) {
    Unsigned(t) != [] && AllDigits(Unsigned(t))
  }

  /** `int(token)`, with `None` for the ValueError. */
  function ParseInt(t: string): (r: Option<int>)
    ensures r.Some? <==> IsIntLiteral(t)
    ensures r.Some? && t[0] != '-' ==> r.value >= 0
  {
    var ds := Unsigned(t);
    if ds != [] && AllDigits(ds) then
      var v: int := DigitsValue(ds);
      Some(if t[0] == '-' then -v else v)
    else None
  }

  /** The decimal digits of `n`. */
  function ShowNat(n: nat): (s: string)
    ensures s != [] && forall i :: 0 <= i < |s| ==> IsDigit(s[i])
  {
    if n < 10 then [('0' as int + n) as char] else ShowNat(n / 10) + [('0' as int + n % 10) as char]
  }

  /** The decimal rendering of `n`, with a minus sign when negative. */
  function ShowInt(n: int): string {
    if n < 0 then "-" + ShowNat(-n) else ShowNat(n)
  }

  lemma {:induction false} DigitsOfShow(n: nat)
    ensures DigitsValue(ShowNat(n)) == n
  {
    if n >= 10 {
      DigitsOfShow(n / 10);
      var s := ShowNat(n);
      assert s[..|s| - 1] == ShowNat(n / 10);
    }
  }

  /** Reading back the decimal rendering of an integer gives the integer. */
  lemma ParseShow(n: int)
    ensures ParseInt(ShowInt(n)) == Some(n)
  {
    var t := ShowInt(n);
    if n < 0 {
      DigitsOfShow(-n);
      assert t[0] == '-' && t[1..] == ShowNat(-n);
      assert Unsigned(t) == ShowNat(-n);
    } else {
      DigitsOfShow(n);
      assert IsDigit(t[0]);
      assert Unsigned(t) == ShowNat(n);
    }
  }

  /** The positions of the start and end fields: 5 and 6 for `RabbitMQ async`, 2 and 3 otherwise. */
  function FieldPositions(protocol: string): (nat, nat) {
    if protocol == "RabbitMQ async" then (5, 6) else (2, 3)
  }

  /** More than three fields, the first one exactly `REQUEST`. */
  predicate IsRequest(parts: seq<string>) {
    |parts| > 3 && parts[0] == "REQUEST"
  }

  /**
   * extract_timestamp: the start and end fields of a REQUEST line, `None` for any other
   * line or when a field is not an integer, and IndexError (not caught) when a field is
   * missing. The start field is read and converted before the end field is looked up.
   */
  function ExtractTimestamp(line: string, protocol: string): (r: Result<Option<(int, int)>, string>)
    ensures !IsRequest(Split(line)) ==> r == Ok(None)
    ensures r.Err? <==>
              protocol == "RabbitMQ async" && IsRequest(Split(line))
              && (|Split(line)| <= 5 || (|Split(line)| == 6 && ParseInt(Split(line)[5]).Some?))
    ensures r.Ok? && r.value.Some? <==>
              IsRequest(Split(line)) && FieldPositions(protocol).1 < |Split(line)|
              && ParseInt(Split(line)[FieldPositions(protocol).0]).Some?
              && ParseInt(Split(line)[FieldPositions(protocol).1]).Some?
    ensures r.Ok? && r.value.Some? ==>
              Some(r.value.value.0) == ParseInt(Split(line)[FieldPositions(protocol).0])
              && Some(r.value.value.1) == ParseInt(Split(line)[FieldPositions(protocol).1])
  {
    var parts := Split(line);
    if !IsRequest(parts) then Ok(None)
    else
      var (i, j) := FieldPositions(protocol);
      if i >= |parts| then Err("IndexError")
      else
        match ParseInt(parts[i])
        case None => Ok(None)
        case Some(start) =>
          if j >= |parts| then Err("IndexError")
          else
            match ParseInt(parts[j])
            case None => Ok(None)
            case Some(end) => Ok(Some((start, end)))
  }

  /** `word` occurs in `s` at position `i`. */
  ghost predicate OccursAt(s: string, word: string, i: int) {
    0 <= i && i + |word| <= |s| && s[i..i + |word|] == word
  }

  /** `word in s`. */
  function Contains(s: string, word: string): (r: bool)
    ensures r <==> exists i :: OccursAt(s, word, i)
    decreases |s|
  {
    if |s| < |word| then false
    else if s[..|word|] == word then
      assert OccursAt(s, word, 0);
      true
    else
      var rest := Contains(s[1..], word);
      assert rest ==> exists i :: OccursAt(s, word, i) by {
        if rest {
          var i :| OccursAt(s[1..], word, i);
          assert s[1..][i..i + |word|] == s[i + 1..i + 1 + |word|];
          assert OccursAt(s, word, i + 1);
        }
      }
      assert (exists i :: OccursAt(s, word, i)) ==> rest by {
        if exists i :: OccursAt(s, word, i) {
          var i :| OccursAt(s, word, i);
          assert i != 0;
          assert s[1..][i - 1..i - 1 + |word|] == s[i..i + |word|];
          assert OccursAt(s[1..], word, i - 1);
        }
      }
      rest
  }

  /** A field already begun is completed by a prefix of the rest of the line. */
  lemma {:induction false} TokensFirstExtends(s: string, cur: string)
    requires cur != []
    ensures Tokens(s, cur) != [] && exists i :: 0 <= i <= |s| && Tokens(s, cur)[0] == cur + s[..i]
    decreases |s|
  {
    if s == [] || IsSpace(s[0]) {
      assert cur + s[..0] == cur;
    } else {
      TokensFirstExtends(s[1..], cur + [s[0]]);
      var i :| 0 <= i <= |s[1..]| && Tokens(s[1..], cur + [s[0]])[0] == cur + [s[0]] + s[1..][..i];
      assert cur + [s[0]] + s[1..][..i] == cur + s[..i + 1];
    }
  }

  /** The first field of a line is a slice of the line. */
  lemma {:induction false} TokensFirstSlice(s: string)
    requires Tokens(s, []) != []
    ensures exists j, k :: 0 <= j <= k <= |s| && Tokens(s, [])[0] == s[j..k]
    decreases |s|
  {
    if IsSpace(s[0]) {
      assert Tokens(s, []) == Tokens(s[1..], []);
      TokensFirstSlice(s[1..]);
      var j, k :| 0 <= j <= k <= |s[1..]| && Tokens(s[1..], [])[0] == s[1..][j..k];
      assert s[1..][j..k] == s[j + 1..k + 1];
    } else {
      TokensFirstExtends(s[1..], [s[0]]);
      var i :| 0 <= i <= |s[1..]| && Tokens(s[1..], [s[0]])[0] == [s[0]] + s[1..][..i];
      assert [] + [s[0]] == [s[0]];
      assert [s[0]] + s[1..][..i] == s[0..i + 1];
    }
  }

  /** A line that extract_timestamp accepts contains `REQUEST`, so the scan's filter keeps it. */
  lemma RequestLineContainsRequest(line: string, protocol: string)
    requires ExtractTimestamp(line, protocol) != Ok(None)
    ensures Contains(line, "REQUEST")
  {
    TokensFirstSlice(line);
    var j, k :| 0 <= j <= k <= |line| && Split(line)[0] == line[j..k];
    assert OccursAt(line, "REQUEST", j);
  }

  /** The running `first_request_time` and `last_request_time`. */
  datatype Window = Window(first: Option<int>, last: Option<int>)

  /** `min(cur, v) if cur else v`: a running value of 0 counts as unset. */
  function KeepMin(cur: Option<int>, v: int): (r: Option<int>)
    ensures r.Some?
    ensures (cur.None? || cur.value == 0) ==> r.value == v
    ensures cur.Some? && cur.value != 0 ==> r.value <= v && r.value <= cur.value && (r.value == v || r.value == cur.value)
  {
    if cur.Some? && cur.value != 0 then Some(if v < cur.value then v else cur.value) else Some(v)
  }

  /** `max(cur, v) if cur else v`: a running value of 0 counts as unset. */
  function KeepMax(cur: Option<int>, v: int): (r: Option<int>)
    ensures r.Some?
    ensures (cur.None? || cur.value == 0) ==> r.value == v
    ensures cur.Some? && cur.value != 0 ==> v <= r.value && cur.value <= r.value && (r.value == v || r.value == cur.value)
  {
    if cur.Some? && cur.value != 0 then Some(if v > cur.value then v else cur.value) else Some(v)
  }

  /** The pairs parsed from the lines mentioning REQUEST, in order, or the error that stops the scan. */
  function Pairs(lines: seq<string>, protocol: string): Result<seq<(int, int)>, string>
    decreases |lines|
  {
    if lines == [] then Ok([])
    else
      var line := lines[|lines| - 1];
      match Pairs(lines[..|lines| - 1], protocol)
      case Err(e) => Err(e)
      case Ok(ps) =>
        if !Contains(line, "REQUEST") then Ok(ps)
        else
          match ExtractTimestamp(line, protocol)
          case Err(e) => Err(e)
          case Ok(None) => Ok(ps)
          case Ok(Some(p)) => Ok(ps + [p])
  }

  /** The pairs extract_timestamp gives when every line is passed to it. */
  function PairsOfAllLines(lines: seq<string>, protocol: string): Result<seq<(int, int)>, string>
    decreases |lines|
  {
    if lines == [] then Ok([])
    else
      match PairsOfAllLines(lines[..|lines| - 1], protocol)
      case Err(e) => Err(e)
      case Ok(ps) =>
        match ExtractTimestamp(lines[|lines| - 1], protocol)
        case Err(e) => Err(e)
        case Ok(None) => Ok(ps)
        case Ok(Some(p)) => Ok(ps + [p])
  }

  /** The `REQUEST` substring filter drops no line that extract_timestamp would accept or fail on. */
  lemma {:induction false} FilterKeepsRequests(lines: seq<string>, protocol: string)
    ensures Pairs(lines, protocol) == PairsOfAllLines(lines, protocol)
    decreases |lines|
  {
    if lines != [] {
      var line := lines[|lines| - 1];
      FilterKeepsRequests(lines[..|lines| - 1], protocol);
      if ExtractTimestamp(line, protocol) != Ok(None) {
        RequestLineContainsRequest(line, protocol);
      }
    }
  }

  /** The running values after the pairs `ps`; both stay `None` exactly when there is no pair. */
  function Fold(ps: seq<(int, int)>): (w: Window)
    ensures w.first.None? <==> ps == []
    ensures w.last.None? <==> ps == []
    decreases |ps|
  {
    if ps == [] then Window(None, None)
    else
      var w := Fold(ps[..|ps| - 1]);
      Window(KeepMin(w.first, ps[|ps| - 1].0), KeepMax(w.last, ps[|ps| - 1].1))
  }

  /** What the scan leaves in `first_request_time` and `last_request_time`. */
  function ScanResult(lines: seq<string>, protocol: string): Result<Window, string> {
    match Pairs(lines, protocol)
    case Err(e) => Err(e)
    case Ok(ps) => Ok(Fold(ps))
  }

  lemma {:induction false} PairsErrPersists(lines: seq<string>, protocol: string, i: nat)
    requires i <= |lines| && Pairs(lines[..i], protocol).Err?
    ensures Pairs(lines, protocol) == Pairs(lines[..i], protocol)
    decreases |lines| - i
  {
    if i < |lines| {
      assert lines[..i + 1][..i] == lines[..i];
      PairsErrPersists(lines, protocol, i + 1);
    } else {
      assert lines[..i] == lines;
    }
  }

  /** The `for line in lines` loop of extract_times_from_simulation_log. */
  method ScanRequestTimes(lines: seq<string>, protocol: string) returns (r: Result<Window, string>)
    ensures r == ScanResult(lines, protocol)
  {
    var first: Option<int> := None;
    var last: Option<int> := None;
    for i := 0 to |lines|
      invariant Pairs(lines[..i], protocol).Ok?
      invariant Window(first, last) == Fold(Pairs(lines[..i], protocol).value)
    {
      assert lines[..i + 1][..i] == lines[..i];
      var line := lines[i];
      if Contains(line, "REQUEST") {
        var timestamp := ExtractTimestamp(line, protocol);
        if timestamp.Err? {
          PairsErrPersists(lines, protocol, i + 1);
          return Err(timestamp.error);
        }
        if timestamp.value.Some? {
          var (start, end) := timestamp.value.value;
          first := if first.Some? && first.value != 0 then Some(if start < first.value then start else first.value) else Some(start);
          last := if last.Some? && last.value != 0 then Some(if end > last.value then end else last.value) else Some(end);
          ghost var ps := Pairs(lines[..i], protocol).value;
          assert (ps + [(start, end)])[..|ps|] == ps;
        }
      }
    }
    assert lines[..|lines|] == lines;
    r := Ok(Window(first, last));
  }

  /**
   * Without a zero start, `first_request_time` is the smallest start; without a zero
   * end, `last_request_time` is the largest end.
   */
  lemma {:induction false} FoldBounds(ps: seq<(int, int)>)
    requires ps != []
    ensures (forall k :: 0 <= k < |ps| ==> ps[k].0 != 0) ==>
              (forall k :: 0 <= k < |ps| ==> Fold(ps).first.value <= ps[k].0)
              && exists k :: 0 <= k < |ps| && Fold(ps).first.value == ps[k].0
    ensures (forall k :: 0 <= k < |ps| ==> ps[k].1 != 0) ==>
              (forall k :: 0 <= k < |ps| ==> ps[k].1 <= Fold(ps).last.value)
              && exists k :: 0 <= k < |ps| && Fold(ps).last.value == ps[k].1
    decreases |ps|
  {
    var n := |ps| - 1;
    if n > 0 {
      var init := ps[..n];
      FoldBounds(init);
      assert forall k :: 0 <= k < n ==> init[k] == ps[k];
      if forall k :: 0 <= k < |ps| ==> ps[k].0 != 0 {
        var j :| 0 <= j < n && Fold(init).first.value == init[j].0;
        assert Fold(ps).first.value == ps[j].0 || Fold(ps).first.value == ps[n].0;
      }
      if forall k :: 0 <= k < |ps| ==> ps[k].1 != 0 {
        var j :| 0 <= j < n && Fold(init).last.value == init[j].1;
        assert Fold(ps).last.value == ps[j].1 || Fold(ps).last.value == ps[n].1;
      }
    } else {
      assert Fold(ps).first.value == ps[0].0 && Fold(ps).last.value == ps[0].1;
    }
  }

  /** A zero start is forgotten: after starts 0 and 5 the first request time is 5, not 0. */
  lemma ZeroStartForgotten()
    ensures Fold([(0, 10), (5, 20)]).first == Some(5)
  {
    assert [(0, 10), (5, 20)][..1] == [(0, 10)];
    assert [(0, 10)][..0] == [];
  }
}
