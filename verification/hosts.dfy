/** `get_hosts_from_args` of bench.py: the raw host list from a comma-separated
    argument or from the lines of a file, filtered by `validate_host`, with an
    abort when nothing valid remains. */
module Hosts {
  import opened Wrappers
  import opened Seqs
  import opened Validation

  /** Where the raw host strings come from: the `--hosts` argument, or the
      `--file` argument whose contents are given as the lines that iterating
      the open file yields (or the fact that it could not be read). */
  datatype HostSource = FromList(csv: string) | FromFile(file: FileContents)

  datatype FileContents = Lines(lines: seq<string>) | Unreadable

  /** The two aborts of `get_hosts_from_args` (both end in `sys.exit(1)`). */
  datatype HostError = FileReadError | NoValidHosts

  // str.strip()

  /** Python's `str.isspace` for one character. */
  predicate IsSpace(c: char) {
    var n := c as int;
    || 0x09 <= n <= 0x0D
    || 0x1C <= n <= 0x20
    || n == 0x85 || n == 0xA0 || n == 0x1680
    || 0x2000 <= n <= 0x200A
    || n == 0x2028 || n == 0x2029 || n == 0x202F || n == 0x205F || n == 0x3000
  }

  predicate AllSpace(s: string) {
    forall k :: 0 <= k < |s| ==> IsSpace(s[k])
  }

  /** The first index at or after `from` that holds no whitespace, or |s|. */
  function SkipSpace(s: string, from: nat): (i: nat)
    requires from <= |s|
    ensures from <= i <= |s|
    ensures forall k :: from <= k < i ==> IsSpace(s[k])
    ensures i < |s| ==> !IsSpace(s[i])
    decreases |s| - from
  {
    if from == |s| || !IsSpace(s[from]) then from else SkipSpace(s, from + 1)
  }

  /** The end of the text before `upto` once trailing whitespace is dropped: every
      index from the result up to `upto` holds whitespace, the one before it does not. */
  function SkipSpaceBack(s: string, upto: nat): (j: nat)
    requires upto <= |s|
    ensures j <= upto
    ensures forall k :: j <= k < upto ==> IsSpace(s[k])
    ensures j > 0 ==> !IsSpace(s[j - 1])
  {
    if upto == 0 || !IsSpace(s[upto - 1]) then upto else SkipSpaceBack(s, upto - 1)
  }

  /** `str.strip()`: whitespace removed at both ends; the result is empty exactly
      when `s` is all whitespace. */
  function Strip(s: string): (t: string)
    ensures t == [] <==> AllSpace(s)
    ensures t != [] ==> !IsSpace(t[0]) && !IsSpace(t[|t| - 1])
  {
    var i := SkipSpace(s, 0);
    if i == |s| then []
    else
      var j := SkipSpaceBack(s, |s|);
      assert i < j;
      s[i..j]
  }

  /** What strip removes is whitespace: the result is the slice of `s` between an
      all-whitespace prefix and an all-whitespace suffix. */
  lemma StripIsSlice(s: string)
    ensures exists i, j :: 0 <= i <= j <= |s| && Strip(s) == s[i..j] && AllSpace(s[..i]) && AllSpace(s[j..])
  {
    var i := SkipSpace(s, 0);
    if i == |s| {
      assert Strip(s) == s[i..i];
      assert AllSpace(s[..i]) && AllSpace(s[i..]);
    } else {
      var j := SkipSpaceBack(s, |s|);
      assert Strip(s) == s[i..j];
      assert AllSpace(s[..i]) && AllSpace(s[j..]);
    }
  }

  /** `[line.strip() for line in f if line.strip()]`: the stripped lines, in order,
      with the blank ones dropped. */
  function FileHosts(lines: seq<string>): (hosts: seq<string>)
    ensures |hosts| <= |lines|
  {
    if lines == [] then []
    else
      var host := Strip(lines[0]);
      if host == [] then FileHosts(lines[1..]) else [host] + FileHosts(lines[1..])
  }

  /** Every line of the file, stripped. */
  function StripLines(lines: seq<string>): (stripped: seq<string>)
    ensures |stripped| == |lines|
    ensures forall k :: 0 <= k < |lines| ==> stripped[k] == Strip(lines[k])
  {
    if lines == [] then [] else [Strip(lines[0])] + StripLines(lines[1..])
  }

  predicate NonEmpty(h: string) {
    h != []
  }

  /** The comprehension is a filter of the stripped lines, so its order and
      repetitions are those of `Seqs.FilterSpec` and `Seqs.FilterOccurrences`. */
  lemma {:induction false} FileHostsIsFilter(lines: seq<string>)
    ensures FileHosts(lines) == Filter(StripLines(lines), NonEmpty)
    decreases |lines|
  {
    if lines != [] {
      FileHostsIsFilter(lines[1..]);
      assert StripLines(lines)[1..] == StripLines(lines[1..]);
    }
  }

  /** Every host read from a file is the non-empty strip of one of its lines. */
  lemma {:induction false} FileHostsStripped(lines: seq<string>)
    ensures forall h :: h in FileHosts(lines) ==> h != [] && !IsSpace(h[0]) && !IsSpace(h[|h| - 1])
    ensures forall h :: h in FileHosts(lines) ==> exists l :: l in lines && Strip(l) == h
  {
    if lines != [] {
      FileHostsStripped(lines[1..]);
      forall h | h in FileHosts(lines[1..])
        ensures exists l :: l in lines && Strip(l) == h
      {
        var l :| l in lines[1..] && Strip(l) == h;
        assert l in lines;
      }
    }
  }

  /** No line that holds more than whitespace is lost. */
  lemma {:induction false} FileHostsCover(lines: seq<string>)
    ensures forall l :: l in lines && !AllSpace(l) ==> Strip(l) in FileHosts(lines)
  {
    if lines != [] {
      FileHostsCover(lines[1..]);
      assert forall l :: l in lines ==> l == lines[0] || l in lines[1..];
    }
  }

  // str.split(',')

  function JoinComma(parts: seq<string>): string
    requires |parts| >= 1
  {
    if |parts| == 1 then parts[0] else parts[0] + "," + JoinComma(parts[1..])
  }

  /** `s.split(',')`: the pieces between commas, empty pieces included; there is
      always at least one piece, and joining them back with ',' gives `s`. */
  function SplitComma(s: string): (parts: seq<string>)
    ensures |parts| >= 1
    ensures forall k :: 0 <= k < |parts| ==> ',' !in parts[k]
    ensures JoinComma(parts) == s
    decreases |s|
  {
    if s == [] then [[]]
    else
      var rest := SplitComma(s[1..]);
      if s[0] == ',' then
        assert s == [] + "," + JoinComma(rest);
        [[]] + rest
      else
        var parts := [[s[0]] + rest[0]] + rest[1..];
        assert parts[1..] == rest[1..];
        assert s == [s[0]] + s[1..];
        parts
  }

  /** Splitting a comma-free prefix glued to `t` extends the first piece of `t`'s split. */
  lemma {:induction false} SplitCommaFreePrefix(w: string, t: string)
    requires ',' !in w
    ensures SplitComma(w + t) == [w + SplitComma(t)[0]] + SplitComma(t)[1..]
    decreases |w|
  {
    if w == [] {
      assert w + t == t;
      assert w + SplitComma(t)[0] == SplitComma(t)[0];
      assert [SplitComma(t)[0]] + SplitComma(t)[1..] == SplitComma(t);
    } else {
      assert (w + t)[0] == w[0];
      assert (w + t)[1..] == w[1..] + t;
      SplitCommaFreePrefix(w[1..], t);
      assert [w[0]] + (w[1..] + SplitComma(t)[0]) == w + SplitComma(t)[0];
    }
  }

  /** Splitting is the inverse of joining comma-free pieces: the split of a string
      is its only decomposition into comma-free pieces. */
  lemma {:induction false} SplitJoin(parts: seq<string>)
    requires |parts| >= 1
    requires forall k :: 0 <= k < |parts| ==> ',' !in parts[k]
    ensures SplitComma(JoinComma(parts)) == parts
    decreases |parts|
  {
    if |parts| == 1 {
      SplitCommaFreePrefix(parts[0], []);
      assert parts[0] + [] == parts[0];
    } else {
      var rest := JoinComma(parts[1..]);
      SplitJoin(parts[1..]);
      assert parts[0] + "," + rest == parts[0] + ("," + rest);
      SplitCommaFreePrefix(parts[0], "," + rest);
      assert ("," + rest)[1..] == rest;
      assert SplitComma("," + rest) == [[]] + parts[1..];
      assert parts[0] + [] == parts[0];
      assert parts == [parts[0]] + parts[1..];
    }
  }

  /** The raw host list, before validation. */
  function RawHosts(src: HostSource): Result<seq<string>, HostError> {
    match src
    case FromList(csv) => Success(SplitComma(csv))
    case FromFile(Lines(lines)) => Success(FileHosts(lines))
    case FromFile(Unreadable) => Failure(FileReadError)
  }

  predicate Invalid(host: string) {
    !ValidateHost(host)
  }

  /** The validation loop: each host goes either to the valid list or to the
      warnings (one "invalid URL format" message per rejected host), in order. */
  method SelectHosts(hosts: seq<string>) returns (valid: seq<string>, warnings: seq<string>)
    ensures valid == Filter(hosts, ValidateHost)
    ensures warnings == Filter(hosts, Invalid)
    ensures forall h :: h in valid ==> ValidateHost(h)
    ensures forall h :: h in warnings ==> !ValidateHost(h)
  {
    valid, warnings := [], [];
    for i := 0 to |hosts|
      invariant valid == Filter(hosts[..i], ValidateHost)
      invariant warnings == Filter(hosts[..i], Invalid)
    {
      var host := hosts[i];
      ghost var seen := hosts[..i];
      assert hosts[..i + 1] == seen + [host];
      FilterAppend(seen, host, ValidateHost);
      FilterAppend(seen, host, Invalid);
      if !ValidateHost(host) {
        warnings := warnings + [host];
      } else {
        valid := valid + [host];
      }
    }
    assert hosts[..|hosts|] == hosts;
    FilterSpec(hosts, ValidateHost);
    FilterSpec(hosts, Invalid);
  }

  /** `get_hosts_from_args`: the valid hosts in input order, or the abort. */
  function GetHosts(src: HostSource): (r: Result<seq<string>, HostError>)
    ensures r == Failure(FileReadError) <==> src == FromFile(Unreadable)
    ensures r == Failure(NoValidHosts) <==>
              RawHosts(src).Success? && forall k :: 0 <= k < |RawHosts(src).value| ==> !ValidateHost(RawHosts(src).value[k])
    ensures r.Success? ==> |r.value| > 0 && forall h :: h in r.value ==> ValidateHost(h)
    ensures r.Success? ==> IsSubsequence(r.value, RawHosts(src).value)
    ensures r.Success? ==> r.value == Filter(RawHosts(src).value, ValidateHost)
  {
    var raw :- RawHosts(src);
    var valid := Filter(raw, ValidateHost);
    FilterSpec(raw, ValidateHost);
    if valid == [] then Failure(NoValidHosts) else Success(valid)
  }
}
