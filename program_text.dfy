// The line-to-value rule of `CPU.load` (ls8/cpu.py): each line is cut at its
// first '#', stripped of surrounding whitespace, skipped when nothing is left,
// and otherwise read as a base-2 integer.
module ProgramText {
  import opened Semantics

  datatype Option<T> = None | Some(value: T)

  /**
   * Why `load` stops early: the line at this index is not a binary literal
   * (`int(value, 2)` raises ValueError), or a 257th value has no cell to go to
   * (the write raises IndexError).
   */
  datatype LoadError = BadLiteral(line: nat) | TooLong

  datatype LoadOutcome = Loaded(count: nat) | Failed(error: LoadError)

  /** The index of the first '#' at or after `from`, or |line| when there is none. */
  function HashFrom(line: string, from: nat): (k: nat)
    requires from <= |line|
    ensures from <= k <= |line| && (k < |line| ==> line[k] == '#')
    decreases |line| - from
  {
    if from == |line| || line[from] == '#' then from else HashFrom(line, from + 1)
  }

  /**
   * `line.split("#")[0]`: the longest prefix of the line without a '#'; when
   * it is not the whole line, a '#' comes right after it.
   */
  function BeforeHash(line: string): (r: string)
    ensures |r| <= |line| && r == line[..|r|] && '#' !in r
    ensures |r| < |line| ==> line[|r|] == '#'
  {
    var k := HashFrom(line, 0);
    NoHashBefore(line, k);
    line[..k]
  }

  lemma NoHashBefore(line: string, k: nat)
    requires k == HashFrom(line, 0)
    ensures '#' !in line[..k]
  {
    forall j | 0 <= j < k
      ensures line[..k][j] != '#'
    {
      HashFromSkipsNoHash(line, 0, j);
    }
  }

  /** The characters Python's `str.strip()` removes. */
  predicate IsSpace(c: char) {
    '\t' <= c <= '\r' || '\U{1c}' <= c <= ' ' || c == '\U{85}' || c == '\U{a0}' || c == '\U{1680}'
    || '\U{2000}' <= c <= '\U{200a}' || c == '\U{2028}' || c == '\U{2029}' || c == '\U{202f}'
    || c == '\U{205f}' || c == '\U{3000}'
  }

  /** The index of the first non-space character at or after `from`, or |s|. */
  function SpaceEnd(s: string, from: nat): (k: nat)
    requires from <= |s|
    ensures from <= k <= |s| && (k < |s| ==> !IsSpace(s[k]))
    decreases |s| - from
  {
    if from == |s| || !IsSpace(s[from]) then from else SpaceEnd(s, from + 1)
  }

  /** One past the last non-space character in s[lo..hi], or lo when there is none. */
  function SpaceStart(s: string, lo: nat, hi: nat): (k: nat)
    requires lo <= hi <= |s|
    ensures lo <= k <= hi && (k > lo ==> !IsSpace(s[k - 1]))
    decreases hi
  {
    if hi == lo || !IsSpace(s[hi - 1]) then hi else SpaceStart(s, lo, hi - 1)
  }

  /**
   * `s.strip()`: s without its leading and trailing whitespace; what is left
   * neither starts nor ends with whitespace (see StripRemovesOnlySpace).
   */
  function Strip(s: string): (r: string)
    ensures |r| <= |s|
    ensures r != [] ==> !IsSpace(r[0]) && !IsSpace(r[|r| - 1])
  {
    var a := SpaceEnd(s, 0);
    s[a..SpaceStart(s, a, |s|)]
  }

  /**
   * `line.split("#")[0].strip()`: what is left holds no '#' and neither
   * starts nor ends with whitespace.
   */
  function Clean(line: string): (r: string)
    ensures |r| <= |line| && '#' !in r
    ensures r != [] ==> !IsSpace(r[0]) && !IsSpace(r[|r| - 1])
  {
    var code := BeforeHash(line);
    StripKeepsNoHash(code);
    Strip(code)
  }

  lemma StripKeepsNoHash(s: string)
    requires '#' !in s
    ensures '#' !in Strip(s)
  {
    var a := SpaceEnd(s, 0);
    assert Strip(s) == s[a..SpaceStart(s, a, |s|)];
  }

  /** Every line of the file, cleaned; `Scan` and `Retained` work on these. */
  function Cleaned(lines: seq<string>): (r: seq<string>)
    ensures |r| == |lines| && forall i :: 0 <= i < |lines| ==> r[i] == Clean(lines[i])
  {
    seq(|lines|, i requires 0 <= i < |lines| => Clean(lines[i]))
  }

  predicate IsBit(c: char) {
    c == '0' || c == '1'
  }

  predicate AllBits(s: string) {
    forall i :: 0 <= i < |s| ==> IsBit(s[i])
  }

  /** The value of a string of binary digits, most significant digit first. */
  function BinaryValue(s: string): nat
    requires AllBits(s)
  {
    if s == [] then 0 else 2 * BinaryValue(s[..|s| - 1]) + (if s[|s| - 1] == '1' then 1 else 0)
  }

  /**
   * `int(value, 2)` restricted to non-empty strings of binary digits; anything
   * else is a malformed literal. A literal of k digits denotes less than 2^k.
   */
  function ParseBinary(s: string): (r: Option<nat>)
    ensures r.Some? <==> s != [] && AllBits(s)
    ensures r.Some? ==> r.value < Pow2(|s|)
  {
    if s != [] && AllBits(s) then BinaryValueBound(s); Some(BinaryValue(s)) else None
  }

  /** The shortest binary literal denoting `n`: the reference encoder the parser is checked against. */
  function ToBinary(n: nat): (s: string)
    ensures s != [] && AllBits(s)
  {
    (if n < 2 then [] else ToBinary(n / 2)) + [if n % 2 == 1 then '1' else '0']
  }

  function Pow2(k: nat): (r: nat)
    ensures r >= 1
  {
    if k == 0 then 1 else 2 * Pow2(k - 1)
  }

  /**
   * The lines `load` keeps, given the cleaned lines of the file: the ones
   * that are empty after cleaning are dropped, the rest kept in file order.
   */
  function Retained(texts: seq<string>): (r: seq<string>)
    ensures |r| <= |texts|
    ensures forall k :: 0 <= k < |r| ==> r[k] != []
  {
    if texts == [] then []
    else if texts[0] == [] then Retained(texts[1..])
    else [texts[0]] + Retained(texts[1..])
  }

  function Shift(o: Option<nat>, d: nat): Option<nat> {
    match o
    case None => None
    case Some(k) => Some(k + d)
  }

  /**
   * What `load` reads from the cleaned lines of a file: the values of the
   * retained lines that come before the first malformed one, and the index of
   * that line, if any.
   */
  datatype Scanned = Scanned(values: seq<nat>, bad: Option<nat>)

  function Scan(texts: seq<string>): (r: Scanned)
    ensures |r.values| <= |texts|
    ensures r.bad.Some? ==> r.bad.value < |texts|
  {
    if texts == [] then Scanned([], None)
    else
      var rest := Scan(texts[1..]);
      if texts[0] == [] then Scanned(rest.values, Shift(rest.bad, 1))
      else match ParseBinary(texts[0])
        case None => Scanned([], Some(0))
        case Some(v) => Scanned([v] + rest.values, Shift(rest.bad, 1))
  }

  /** Every character skipped by `HashFrom` is not a '#'. */
  lemma {:induction false} HashFromSkipsNoHash(line: string, from: nat, j: nat)
    requires from <= |line| && from <= j < HashFrom(line, from)
    ensures line[j] != '#'
    decreases |line| - from
  {
    if j > from {
      HashFromSkipsNoHash(line, from + 1, j);
    }
  }

  lemma {:induction false} SpaceEndSkipsSpace(s: string, from: nat, j: nat)
    requires from <= |s| && from <= j < SpaceEnd(s, from)
    ensures IsSpace(s[j])
    decreases |s| - from
  {
    if j > from {
      SpaceEndSkipsSpace(s, from + 1, j);
    }
  }

  lemma {:induction false} SpaceStartSkipsSpace(s: string, lo: nat, hi: nat, j: nat)
    requires lo <= hi <= |s| && SpaceStart(s, lo, hi) <= j < hi
    ensures IsSpace(s[j])
    decreases hi
  {
    if j < hi - 1 {
      SpaceStartSkipsSpace(s, lo, hi - 1, j);
    }
  }

  /**
   * `strip` removes exactly the surrounding whitespace: what it keeps is a
   * slice of s that neither starts nor ends with whitespace, and everything
   * outside that slice is whitespace.
   */
  lemma StripRemovesOnlySpace(s: string)
    ensures exists a, b :: 0 <= a <= b <= |s| && Strip(s) == s[a..b]
              && (forall j :: 0 <= j < a || b <= j < |s| ==> IsSpace(s[j]))
              && (a < b ==> !IsSpace(s[a]) && !IsSpace(s[b - 1]))
  {
    var a := SpaceEnd(s, 0);
    var b := SpaceStart(s, a, |s|);
    forall j | 0 <= j < a || b <= j < |s|
      ensures IsSpace(s[j])
    {
      if j < a {
        SpaceEndSkipsSpace(s, 0, j);
      } else {
        SpaceStartSkipsSpace(s, a, |s|, j);
      }
    }
    assert Strip(s) == s[a..b] && (a < b ==> !IsSpace(s[a]) && !IsSpace(s[b - 1]));
  }

  /** Only the text before the first '#' matters: a comment never changes what a line holds. */
  lemma CommentIgnored(code: string, comment: string)
    requires '#' !in code
    ensures Clean(code + "#" + comment) == Clean(code)
  {
    var line := code + "#" + comment;
    var k := HashFrom(line, 0);
    assert line[|code|] == '#';
    if k > |code| {
      HashFromSkipsNoHash(line, 0, |code|);
    }
    assert k == |code|;
    assert line[..k] == code;
    assert code[..HashFrom(code, 0)] == code;
  }

  lemma {:induction false} BinaryValueSnoc(s: string, c: char)
    requires AllBits(s)
    requires IsBit(c)
    ensures BinaryValue(s + [c]) == 2 * BinaryValue(s) + (if c == '1' then 1 else 0)
  {
    assert (s + [c])[..|s + [c]| - 1] == s;
  }

  /** Parsing the reference encoding of any number gives that number back. */
  lemma {:induction false} BinaryRoundTrip(n: nat)
    ensures ParseBinary(ToBinary(n)) == Some(n)
  {
    BinaryValueOfToBinary(n);
  }

  /** A leading zero does not change a literal's value. */
  lemma {:induction false} LeadingZero(s: string)
    requires AllBits(s)
    ensures AllBits(['0'] + s) && BinaryValue(['0'] + s) == BinaryValue(s)
  {
    if s != [] {
      assert (['0'] + s)[..|s|] == ['0'] + s[..|s| - 1];
      LeadingZero(s[..|s| - 1]);
    }
  }

  /**
   * Parsing the reference encoding of any number, padded on the left with any
   * number of zeros (as program lines are, e.g. `00001000`), gives it back.
   */
  lemma {:induction false} PaddedRoundTrip(n: nat, pad: nat)
    ensures ParseBinary(seq(pad, _ => '0') + ToBinary(n)) == Some(n)
  {
    if pad == 0 {
      assert seq(pad, _ => '0') + ToBinary(n) == ToBinary(n);
      BinaryRoundTrip(n);
    } else {
      var rest := seq(pad - 1, _ => '0') + ToBinary(n);
      assert seq(pad, _ => '0') + ToBinary(n) == ['0'] + rest;
      PaddedRoundTrip(n, pad - 1);
      LeadingZero(rest);
    }
  }

  lemma {:induction false} BinaryValueOfToBinary(n: nat)
    ensures BinaryValue(ToBinary(n)) == n
  {
    var d := if n % 2 == 1 then '1' else '0';
    var prefix := if n < 2 then [] else ToBinary(n / 2);
    assert ToBinary(n) == prefix + [d];
    BinaryValueSnoc(prefix, d);
    if n >= 2 {
      BinaryValueOfToBinary(n / 2);
    }
    assert BinaryValue(prefix) == n / 2;
  }

  /** A literal of k digits denotes a value below 2^k; so eight digits give a byte. */
  lemma {:induction false} BinaryValueBound(s: string)
    requires AllBits(s)
    ensures BinaryValue(s) < Pow2(|s|)
    ensures |s| <= 8 ==> BinaryValue(s) < 256
  {
    if s != [] {
      BinaryValueBound(s[..|s| - 1]);
    }
    if |s| <= 8 {
      Pow2Monotone(|s|, 8);
      assert Pow2(8) == 256;
    }
  }

  lemma {:induction false} Pow2Monotone(j: nat, k: nat)
    requires j <= k
    ensures Pow2(j) <= Pow2(k)
  {
    if j < k {
      Pow2Monotone(j, k - 1);
    }
  }

  /**
   * When no line is malformed, `load` writes exactly one value per retained
   * line, in order, and the k-th value is the base-2 reading of the k-th
   * retained line; a line is malformed exactly when some retained line does
   * not parse.
   */
  lemma {:induction false} ScanRetained(texts: seq<string>)
    ensures Scan(texts).bad.None? <==> forall k :: 0 <= k < |Retained(texts)| ==> ParseBinary(Retained(texts)[k]).Some?
    ensures Scan(texts).bad.None? ==> |Scan(texts).values| == |Retained(texts)|
    ensures Scan(texts).bad.None? ==>
              forall k :: 0 <= k < |Retained(texts)| ==> ParseBinary(Retained(texts)[k]) == Some(Scan(texts).values[k])
  {
    if texts != [] {
      ScanRetained(texts[1..]);
      var c := texts[0];
      if c != [] {
        var r := Retained(texts);
        assert r == [c] + Retained(texts[1..]);
        assert forall k :: 1 <= k < |r| ==> r[k] == Retained(texts[1..])[k - 1];
        if ParseBinary(c).None? {
          assert Scan(texts) == Scanned([], Some(0));
          assert ParseBinary(r[0]).None?;
          assert !(forall k :: 0 <= k < |Retained(texts)| ==> ParseBinary(Retained(texts)[k]).Some?);
        } else {
          var tail := Retained(texts[1..]);
          if forall k :: 0 <= k < |tail| ==> ParseBinary(tail[k]).Some? {
            assert forall k :: 0 <= k < |r| ==> ParseBinary(r[k]).Some?;
          } else {
            var k :| 0 <= k < |tail| && ParseBinary(tail[k]).None?;
            assert ParseBinary(r[k + 1]).None?;
          }
        }
      } else {
        assert Retained(texts) == Retained(texts[1..]);
      }
    }
  }

  /**
   * When line i is the first malformed line, it is non-empty and does not
   * parse, and the values read are exactly those of the lines before it.
   */
  lemma {:induction false} ScanStopsAtBad(texts: seq<string>, i: nat)
    requires Scan(texts).bad == Some(i)
    ensures i < |texts| && texts[i] != [] && ParseBinary(texts[i]).None?
    ensures Scan(texts[..i]) == Scanned(Scan(texts).values, None)
  {
    var rest := texts[1..];
    if texts[0] != [] && ParseBinary(texts[0]).None? {
      assert i == 0;
      assert texts[..i] == [];
    } else {
      ScanStopsAtBad(rest, i - 1);
      var pre := texts[..i];
      assert pre[1..] == rest[..i - 1];
    }
  }

  /**
   * The loop of `load` has read the cleaned lines before index i, and the
   * values it wrote so far are `done`.
   */
  ghost predicate ScannedUpTo(texts: seq<string>, i: nat, done: seq<nat>)
    requires i <= |texts|
  {
    Scan(texts).values == done + Scan(texts[i..]).values && Scan(texts).bad == Shift(Scan(texts[i..]).bad, i)
  }

  lemma ScanSkip(texts: seq<string>, i: nat, done: seq<nat>)
    requires i < |texts| && texts[i] == [] && ScannedUpTo(texts, i, done)
    ensures ScannedUpTo(texts, i + 1, done)
  {
    assert texts[i..][1..] == texts[i + 1..];
  }

  lemma ScanTake(texts: seq<string>, i: nat, done: seq<nat>, v: nat)
    requires i < |texts| && texts[i] != [] && ParseBinary(texts[i]) == Some(v) && ScannedUpTo(texts, i, done)
    ensures ScannedUpTo(texts, i + 1, done + [v])
    ensures |Scan(texts).values| > |done|
  {
    assert texts[i..][1..] == texts[i + 1..];
    assert Scan(texts[i..]).values == [v] + Scan(texts[i + 1..]).values;
  }

  lemma ScanBad(texts: seq<string>, i: nat, done: seq<nat>)
    requires i < |texts| && texts[i] != [] && ParseBinary(texts[i]).None? && ScannedUpTo(texts, i, done)
    ensures Scan(texts) == Scanned(done, Some(i))
  {
    assert Scan(texts[i..]) == Scanned([], Some(0));
  }

  lemma ScanEnd(texts: seq<string>, done: seq<nat>)
    requires ScannedUpTo(texts, |texts|, done)
    ensures Scan(texts) == Scanned(done, None)
  {
    assert texts[|texts|..] == [];
  }

  /** How `load` ends on these lines. */
  function LoadResult(lines: seq<string>): (r: LoadOutcome)
    ensures r.Loaded? ==> r.count <= MemSize
  {
    var s := Scan(Cleaned(lines));
    if |s.values| > MemSize then Failed(TooLong)
    else if s.bad.Some? then Failed(BadLiteral(s.bad.value))
    else Loaded(|s.values|)
  }

  /**
   * Memory after `load` on these lines, starting from `ram`: the values read
   * go to consecutive cells from address 0 for as long as there are cells;
   * the other cells keep their contents. On a malformed line the values read
   * before it are already in place.
   */
  function LoadedMemory(ram: seq<nat>, lines: seq<string>): (r: seq<nat>)
    ensures |r| == |ram|
    ensures var vs := Scan(Cleaned(lines)).values;
            forall k :: 0 <= k < |r| ==> r[k] == if k < |vs| then vs[k] else ram[k]
  {
    var vs := Scan(Cleaned(lines)).values;
    var n := if |vs| < |ram| then |vs| else |ram|;
    vs[..n] + ram[n..]
  }

  /** A load whose reading of the lines ends with `done` (and `bad`) within memory. */
  lemma LoadStops(ram: seq<nat>, lines: seq<string>, done: seq<nat>, bad: Option<nat>)
    requires |done| <= |ram| == MemSize && Scan(Cleaned(lines)) == Scanned(done, bad)
    ensures LoadedMemory(ram, lines) == done + ram[|done|..]
    ensures LoadResult(lines) == if bad.Some? then Failed(BadLiteral(bad.value)) else Loaded(|done|)
  {
  }

  /** A load that reads a value when all 256 cells are already written. */
  lemma LoadOverflows(ram: seq<nat>, lines: seq<string>, i: nat, done: seq<nat>)
    requires |done| == |ram| == MemSize && i <= |lines|
    requires ScannedUpTo(Cleaned(lines), i, done) && |Scan(Cleaned(lines)).values| > |done|
    ensures LoadedMemory(ram, lines) == done + ram[|done|..]
    ensures LoadResult(lines) == Failed(TooLong)
  {
    assert Scan(Cleaned(lines)).values[..|done|] == done;
  }

  /**
   * A load that succeeds puts the k-th retained line's base-2 value at
   * address k, one cell per retained line, and leaves every later cell as it
   * was.
   */
  lemma LoadPlacesRetained(ram: seq<nat>, lines: seq<string>)
    requires |ram| == MemSize && LoadResult(lines).Loaded?
    ensures LoadResult(lines).count == |Retained(Cleaned(lines))|
    ensures forall k :: 0 <= k < LoadResult(lines).count ==>
              ParseBinary(Retained(Cleaned(lines))[k]) == Some(LoadedMemory(ram, lines)[k])
    ensures forall k :: LoadResult(lines).count <= k < MemSize ==> LoadedMemory(ram, lines)[k] == ram[k]
  {
    ScanRetained(Cleaned(lines));
  }
}
