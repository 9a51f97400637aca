/** The option handling of odm/libexec/odm_list.py: the exclude list, the
    --domain-map rewriting table and the --diff choice of checks.

    The script runs under Python 2.  The options and the lines of the
    exclude file are byte strings, on which `lower()` and `rstrip()` act
    on ASCII only; the item names, the paths built from them and the
    permission addresses come from `json.load` and are unicode strings.
    Python 2 mixes the two by converting through ASCII: a byte string with
    a non-ASCII byte never equals a unicode string and raises where it is
    joined to one or tested with `startswith`, and a unicode string with a
    non-ASCII character raises where it is formatted into a byte string.
    `Ascii` marks the places where this matters. */
module OdmListOptions {
  import opened Wrappers
  import opened OneDrive
  import Bits

  /** Every character is below 128: the strings Python 2 converts between
      byte strings and unicode strings without an error. */
  predicate Ascii(s: string)
  {
    forall k :: 0 <= k < |s| ==> s[k] < 128 as char
  }

  // ---------------------------------------------------------------------------
  // str.split with a one-character separator

  /** The number of times c occurs in s. */
  function Occurrences(s: string, c: char): nat
  {
    if s == [] then 0 else (if s[0] == c then 1 else 0) + Occurrences(s[1..], c)
  }

  /** The position of the first c in s. */
  function IndexOf(s: string, c: char): (i: nat)
    requires c in s
    ensures i < |s| && s[i] == c && c !in s[..i]
  {
    if s[0] == c then 0
    else
      var j := IndexOf(s[1..], c);
      assert s[..j + 1] == [s[0]] + s[1..][..j];
      j + 1
  }

  /** s.split(sep): the pieces between consecutive separators. */
  function Split(s: string, sep: char): (r: seq<string>)
    ensures |r| >= 1
    ensures forall k :: 0 <= k < |r| ==> sep !in r[k]
    decreases |s|
  {
    if sep !in s then [s]
    else
      var i := IndexOf(s, sep);
      [s[..i]] + Split(s[i + 1..], sep)
  }

  /** Joining the pieces with the separator gives the string back. */
  lemma {:induction false} SplitJoin(s: string, sep: char)
    ensures Join([sep], Split(s, sep)) == s
    decreases |s|
  {
    if sep in s {
      var i := IndexOf(s, sep);
      var rest := Split(s[i + 1..], sep);
      SplitJoin(s[i + 1..], sep);
      assert Split(s, sep) == [s[..i]] + rest;
      TailOfCons(s[..i], rest);
      SplitAround(s, i);
    }
  }

  lemma TailOfCons(x: string, rest: seq<string>)
    ensures ([x] + rest)[1..] == rest && ([x] + rest)[0] == x
  {
  }

  lemma SplitAround(s: string, i: nat)
    requires i < |s|
    ensures s == s[..i] + [s[i]] + s[i + 1..]
  {
  }

  /** Splitting a join of separator-free pieces gives the pieces back. */
  lemma {:induction false} JoinSplit(parts: seq<string>, sep: char)
    requires |parts| >= 1 && forall k :: 0 <= k < |parts| ==> sep !in parts[k]
    ensures Split(Join([sep], parts), sep) == parts
  {
    if |parts| > 1 {
      var rest := Join([sep], parts[1..]);
      var s := parts[0] + [sep] + rest;
      JoinSplit(parts[1..], sep);
      JoinedSlices(parts[0], sep, rest);
      IndexOfFirst(s, sep, |parts[0]|);
      ConsParts(parts);
    }
  }

  lemma JoinedSlices(a: string, sep: char, rest: string)
    ensures var s := a + [sep] + rest;
            s[..|a|] == a && s[|a|] == sep && s[|a| + 1..] == rest
  {
  }

  lemma ConsParts(parts: seq<string>)
    requires parts != []
    ensures parts == [parts[0]] + parts[1..]
  {
  }

  lemma IndexOfFirst(s: string, c: char, i: nat)
    requires i < |s| && s[i] == c && c !in s[..i]
    ensures IndexOf(s, c) == i
  {
    var j := IndexOf(s, c);
    assert forall k :: 0 <= k < i ==> s[..i][k] == s[k];
    assert forall k :: 0 <= k < j ==> s[..j][k] == s[k];
  }

  /** There is one more piece than there are separators. */
  lemma {:induction false} SplitCount(s: string, sep: char)
    ensures |Split(s, sep)| == Occurrences(s, sep) + 1
    decreases |s|
  {
    if sep in s {
      var i := IndexOf(s, sep);
      SplitCount(s[i + 1..], sep);
      OccurrencesConcat(s[..i], s[i..], sep);
      OccurrencesAbsent(s[..i], sep);
      assert s[i..] == [sep] + s[i + 1..];
      assert s[..i] + s[i..] == s;
    } else {
      OccurrencesAbsent(s, sep);
    }
  }

  lemma {:induction false} OccurrencesConcat(a: string, b: string, c: char)
    ensures Occurrences(a + b, c) == Occurrences(a, c) + Occurrences(b, c)
  {
    if a != [] {
      OccurrencesConcat(a[1..], b, c);
      assert (a + b)[1..] == a[1..] + b;
    } else {
      assert a + b == b;
    }
  }

  lemma {:induction false} OccurrencesAbsent(s: string, c: char)
    requires c !in s
    ensures Occurrences(s, c) == 0
  {
    if s != [] {
      OccurrencesAbsent(s[1..], c);
    }
  }

  // ---------------------------------------------------------------------------
  // lower() and rstrip() on byte strings

  function LowerChar(c: char): char
  {
    if 'A' <= c <= 'Z' then (c as int + 32) as char else c
  }

  /** str.lower() on a Python 2 byte string: ASCII upper case only. */
  function Lower(s: string): (r: string)
    ensures |r| == |s|
  {
    seq(|s|, k requires 0 <= k < |s| => LowerChar(s[k]))
  }

  /** The characters str.rstrip() removes: space, tab, newline, vertical
      tab, form feed and carriage return. */
  predicate IsSpace(c: char)
  {
    c == ' ' || '\t' <= c <= '\r'
  }

  /** str.rstrip(): the longest prefix that does not end in white space. */
  function RStrip(s: string): (r: string)
    ensures |r| <= |s| && r == s[..|r|]
    ensures forall k :: |r| <= k < |s| ==> IsSpace(s[k])
    ensures r == [] || !IsSpace(r[|r| - 1])
  {
    if s == [] || !IsSpace(s[|s| - 1]) then s else RStrip(s[..|s| - 1])
  }

  /** Stripping twice strips nothing more. */
  lemma RStripIdempotent(s: string)
    ensures RStrip(RStrip(s)) == RStrip(s)
  {
  }

  /** str.rstrip(c) for one character c. */
  function RStripChar(s: string, c: char): (r: string)
    ensures |r| <= |s| && r == s[..|r|]
    ensures forall k :: |r| <= k < |s| ==> s[k] == c
    ensures r == [] || r[|r| - 1] != c
  {
    if s == [] || s[|s| - 1] != c then s else RStripChar(s[..|s| - 1], c)
  }

  // ---------------------------------------------------------------------------
  // --domain-map

  /** One `src:dst` mapping: None where `(src, dst) = mapping.split(':')`
      raises ValueError. */
  function Pair(mapping: string): (r: Option<(string, string)>)
  {
    var parts := Split(mapping, ':');
    if |parts| == 2 then Some((parts[0], parts[1])) else None
  }

  /** A mapping unpacks exactly when it holds one colon, into the text
      before it and the text after it. */
  lemma PairSplitsAtColon(mapping: string)
    ensures Pair(mapping).Some? <==> Occurrences(mapping, ':') == 1
    ensures Pair(mapping).Some? ==>
              var (src, dst) := Pair(mapping).value;
              mapping == src + ":" + dst && ':' !in src && ':' !in dst
  {
    SplitCount(mapping, ':');
    SplitJoin(mapping, ':');
    var parts := Split(mapping, ':');
    if |parts| == 2 {
      assert parts[1..] == [parts[1]];
    }
  }

  /** The table lines 76-79 build from the mappings, in order; None where
      one of them raises. */
  function DomainMapOf(mappings: seq<string>): Option<map<string, string>>
  {
    if mappings == [] then Some(map[])
    else
      match DomainMapOf(mappings[..|mappings| - 1])
      case None => None
      case Some(m) =>
        match Pair(mappings[|mappings| - 1])
        case None => None
        case Some((src, dst)) => Some(m[src := dst])
  }

  /** The table is built exactly when every mapping unpacks. */
  lemma {:induction false} DomainMapFails(mappings: seq<string>)
    ensures DomainMapOf(mappings).None? <==> exists k :: 0 <= k < |mappings| && Pair(mappings[k]).None?
  {
    if mappings != [] {
      var init := mappings[..|mappings| - 1];
      DomainMapFails(init);
      if DomainMapOf(init).None? {
        var k :| 0 <= k < |init| && Pair(init[k]).None?;
        assert mappings[k] == init[k];
      }
      forall k | 0 <= k < |init|
        ensures mappings[k] == init[k]
      {
      }
    }
  }

  /** Every mapping unpacks. */
  predicate AllPairs(mappings: seq<string>)
  {
    forall j :: 0 <= j < |mappings| ==> Pair(mappings[j]).Some?
  }

  function Source(mapping: string): string
    requires Pair(mapping).Some?
  {
    Pair(mapping).value.0
  }

  /** The table's keys are exactly the sources the mappings name. */
  lemma {:induction false} DomainMapKeys(mappings: seq<string>)
    requires DomainMapOf(mappings).Some?
    ensures AllPairs(mappings)
    ensures DomainMapOf(mappings).value.Keys == Sources(mappings)
  {
    DomainMapFails(mappings);
    if mappings != [] {
      var n := |mappings| - 1;
      var init := mappings[..n];
      DomainMapKeys(init);
      SourcesSnoc(mappings);
    }
  }

  function Sources(mappings: seq<string>): set<string>
    requires AllPairs(mappings)
  {
    set k | 0 <= k < |mappings| :: Source(mappings[k])
  }

  lemma SourcesSnoc(mappings: seq<string>)
    requires mappings != [] && AllPairs(mappings)
    ensures AllPairs(mappings[..|mappings| - 1])
    ensures Sources(mappings) == Sources(mappings[..|mappings| - 1]) + {Source(mappings[|mappings| - 1])}
  {
    var n := |mappings| - 1;
    var init := mappings[..n];
    assert forall k :: 0 <= k < n ==> init[k] == mappings[k];
    var before := Sources(init);
    var after := Sources(mappings);
    forall x | x in after
      ensures x in before + {Source(mappings[n])}
    {
      var k :| 0 <= k < |mappings| && Source(mappings[k]) == x;
      if k < n {
        assert Source(init[k]) == x;
      }
    }
    forall x | x in before
      ensures x in after
    {
      var k :| 0 <= k < n && Source(init[k]) == x;
      assert Source(mappings[k]) == x;
    }
  }

  /** No later mapping names the source of mapping k. */
  predicate LastNaming(mappings: seq<string>, k: nat)
    requires k < |mappings| && AllPairs(mappings)
  {
    forall j :: k < j < |mappings| ==> Source(mappings[j]) != Source(mappings[k])
  }

  /** A source maps to the target of the last mapping that names it. */
  lemma {:induction false} DomainMapLastWins(mappings: seq<string>, k: nat)
    requires DomainMapOf(mappings).Some? && k < |mappings|
    ensures AllPairs(mappings) && Source(mappings[k]) in DomainMapOf(mappings).value
    ensures LastNaming(mappings, k) ==>
              DomainMapOf(mappings).value[Source(mappings[k])] == Pair(mappings[k]).value.1
  {
    DomainMapKeys(mappings);
    var n := |mappings| - 1;
    var init := mappings[..n];
    if k < n && LastNaming(mappings, k) {
      assert init[k] == mappings[k];
      assert Source(mappings[n]) != Source(mappings[k]);
      DomainMapLastWins(init, k);
      assert LastNaming(init, k) by {
        forall j | k < j < n
          ensures Source(init[j]) != Source(init[k])
        {
          assert init[j] == mappings[j];
        }
      }
    }
  }

  /** Lines 76-79: no table without a --domain-map; otherwise the lower-cased
      option split on ',' into mappings.  None where a mapping raises. */
  method ParseDomainMap(option: Option<string>) returns (r: Option<map<string, string>>)
    ensures r == if Truthy(option) then DomainMapOf(Split(Lower(option.value), ',')) else Some(map[])
  {
    var table: map<string, string> := map[];
    if !Truthy(option) {
      return Some(table);
    }
    var mappings := Split(Lower(option.value), ',');
    for i := 0 to |mappings|
      invariant DomainMapOf(mappings[..i]) == Some(table)
    {
      assert mappings[..i + 1][..i] == mappings[..i];
      var parts := Split(mappings[i], ':');
      if |parts| != 2 {
        assert Pair(mappings[i]).None?;
        DomainMapFails(mappings);
        return None;
      }
      table := table[parts[0] := parts[1]];
    }
    assert mappings[..|mappings|] == mappings;
    return Some(table);
  }

  // ---------------------------------------------------------------------------
  // --diff

  /** Whether --diff asks for a check: always without --diff, else when
      the check is one of its comma-separated words. */
  predicate Requested(diff: Option<string>, check: string)
  {
    !Truthy(diff) || check in Split(diff.value, ',')
  }

  /** The keyword arguments lines 115-124 pass to verify_file. */
  datatype VerifyArgs = VerifyArgs(dest: string, size: Option<int>, fileHash: Option<string>, strict: bool)

  function VerifyArguments(dest: string, size: int, digest: Option<string>, diff: Option<string>,
                           strict: bool): (r: VerifyArgs)
    ensures r.dest == dest && r.strict == strict
    ensures r.size.Some? <==> Requested(diff, "size")
    ensures r.size.Some? ==> r.size.value == size
    ensures r.fileHash == if Requested(diff, "hash") then digest else None
  {
    VerifyArgs(dest,
               if Requested(diff, "size") then Some(size) else None,
               if Requested(diff, "hash") then digest else None,
               strict)
  }

  /** What verifying with these arguments checks: the file exists; it has
      the item's size when --diff asks for sizes; it has the item's hash when
      --diff asks for hashes and the item declares one.  A strict check with
      neither requested fails. */
  lemma DiffScopesVerification(fs: map<string, seq<Bits.Byte>>, dest: string, size: int,
                               digest: Option<string>, diff: Option<string>, strict: bool)
    ensures var a := VerifyArguments(dest, size, digest, diff, strict);
            VerifyFile(fs, a.dest, a.size, a.fileHash, a.strict)
            <==> dest in fs
                 && !(strict && !Requested(diff, "size") && (!Requested(diff, "hash") || digest.None?))
                 && (Requested(diff, "size") ==> |fs[dest]| == size)
                 && (Requested(diff, "hash") && Truthy(digest) ==> ContentHash(fs[dest]) == digest)
  {
  }
}
