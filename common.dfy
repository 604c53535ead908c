/**
  Value-level building blocks shared by the rest of the model: Ruby's nil
  (Option), Ruby exceptions (Result), byte strings and the handful of Ruby
  String operations the adapter relies on (split, join, downcase, upcase, tr,
  Integer(), Integer#to_s).

  Strings and byte buffers are both `string`: every buffer in the adapter is
  forced to ASCII-8BIT, so one character stands for one byte and `bytesize`
  is the length of the sequence.
*/
module Common {

  datatype Option<T> = None | Some(value: T) {
    function GetOr(default: T): T {
      match this
      case Some(v) => v
      case None => default
    }
  }

  /** The Ruby exception classes the adapter raises or rescues. */
  datatype ErrorClass = IOError | ArgumentError | NoMethodError | RuntimeError | StandardError

  datatype Error = Error(cls: ErrorClass, message: string)

  /** A Ruby call that either returns a value or raises. */
  datatype Result<T> = Ok(value: T) | Raised(error: Error)

  /** The outcome of a Ruby call whose return value is not used. */
  datatype Outcome = Done | Failed(error: Error)

  function ClassName(c: ErrorClass): string {
    match c
    case IOError => "IOError"
    case ArgumentError => "ArgumentError"
    case NoMethodError => "NoMethodError"
    case RuntimeError => "RuntimeError"
    case StandardError => "StandardError"
  }

  function Min(a: int, b: int): int { if a < b then a else b }

  // ---------------------------------------------------------------------
  // Hashes

  /**
    A Ruby Hash with string keys. A Hash keeps its keys in insertion order,
    so it is an association list with distinct keys: writing an existing key
    replaces its value where it stands, writing a new key appends it.
  */
  type Hash<V> = seq<(string, V)>

  predicate DistinctKeys<V>(entries: Hash<V>)
  {
    forall i, j :: 0 <= i < j < |entries| ==> entries[i].0 != entries[j].0
  }

  /** No key of the first hash is a key of the second. */
  predicate Apart<V>(first: Hash<V>, second: Hash<V>)
  {
    forall i, j :: 0 <= i < |first| && 0 <= j < |second| ==> first[i].0 != second[j].0
  }

  /** A hash put together from two parts shares no key with a third when neither part does. */
  lemma ApartAppend<V>(first: Hash<V>, second: Hash<V>, third: Hash<V>)
    requires Apart(first, third) && Apart(second, third)
    ensures Apart(first + second, third)
  {
    var s := first + second;
    forall i, j | 0 <= i < |s| && 0 <= j < |third|
      ensures s[i].0 != third[j].0
    {
      if i < |first| {
        assert s[i] == first[i];
      } else {
        assert s[i] == second[i - |first|];
      }
    }
  }

  /** Two hashes with distinct keys and no key in common put together keep them distinct. */
  lemma DistinctApart<V>(first: Hash<V>, second: Hash<V>)
    requires DistinctKeys(first) && DistinctKeys(second) && Apart(first, second)
    ensures DistinctKeys(first + second)
  {
    var s := first + second;
    var n := |first|;
    forall i, j | 0 <= i < j < |s|
      ensures s[i].0 != s[j].0
    {
      if j < n {
        assert s[i] == first[i] && s[j] == first[j];
      } else if i >= n {
        assert s[i] == second[i - n] && s[j] == second[j - n];
      } else {
        assert s[i] == first[i] && s[j] == second[j - n];
      }
    }
  }

  /** `hash[key]` as a lookup: the value stored under `key`, None when it is absent. */
  function Lookup<V>(entries: Hash<V>, key: string): (r: Option<V>)
    ensures r.None? <==> forall i :: 0 <= i < |entries| ==> entries[i].0 != key
  {
    if entries == [] then None
    else if entries[0].0 == key then Some(entries[0].1)
    else
      var r := Lookup(entries[1..], key);
      assert forall i :: 0 < i < |entries| ==> entries[i] == entries[1..][i - 1];
      r
  }

  /** In a hash with distinct keys, looking a key up finds the entry that holds it. */
  lemma {:induction false} LookupAt<V>(entries: Hash<V>, i: nat)
    requires DistinctKeys(entries) && i < |entries|
    ensures Lookup(entries, entries[i].0) == Some(entries[i].1)
  {
    if i > 0 {
      assert DistinctKeys(entries[1..]) by {
        forall a, b | 0 <= a < b < |entries[1..]|
          ensures entries[1..][a].0 != entries[1..][b].0
        {
          assert entries[1..][a] == entries[a + 1] && entries[1..][b] == entries[b + 1];
        }
      }
      LookupAt(entries[1..], i - 1);
      assert entries[1..][i - 1] == entries[i];
    }
  }

  /** `hash[key] = value`: replaces the value in place, or appends a new entry. */
  function Store<V>(entries: Hash<V>, key: string, value: V): (r: Hash<V>)
    ensures |r| == |entries| + (if Lookup(entries, key).None? then 1 else 0)
    ensures forall i :: 0 <= i < |entries| ==> r[i].0 == entries[i].0
  {
    if entries == [] then [(key, value)]
    else if entries[0].0 == key then [(key, value)] + entries[1..]
    else [entries[0]] + Store(entries[1..], key, value)
  }

  /** `hash.transform_values(&f)`: the same keys in the same order, each value passed through `f`. */
  function MapValues<A, B>(entries: Hash<A>, f: A -> B): (r: Hash<B>)
    ensures |r| == |entries|
    ensures forall i :: 0 <= i < |entries| ==> r[i] == (entries[i].0, f(entries[i].1))
  {
    seq(|entries|, i requires 0 <= i < |entries| => (entries[i].0, f(entries[i].1)))
  }

  /** Looking a key up after `transform_values` finds the transformed value. */
  lemma {:induction false} LookupMapValues<A, B>(entries: Hash<A>, f: A -> B, key: string)
    ensures Lookup(MapValues(entries, f), key) == if Lookup(entries, key).Some? then Some(f(Lookup(entries, key).value)) else None
  {
    if entries != [] {
      assert MapValues(entries, f)[1..] == MapValues(entries[1..], f);
      LookupMapValues(entries[1..], f, key);
    }
  }

  /** Looking up in two hashes put together finds the first one's entry, or else the second's. */
  lemma {:induction false} LookupAppend<V>(first: Hash<V>, second: Hash<V>, key: string)
    ensures Lookup(first + second, key) == if Lookup(first, key).Some? then Lookup(first, key) else Lookup(second, key)
  {
    if first == [] {
      assert first + second == second;
    } else {
      assert (first + second)[1..] == first[1..] + second;
      LookupAppend(first[1..], second, key);
    }
  }

  /** A stored value is what a later lookup of that key finds; every other key is untouched. */
  lemma {:induction false} LookupStore<V>(entries: Hash<V>, key: string, value: V, other: string)
    ensures Lookup(Store(entries, key, value), key) == Some(value)
    ensures other != key ==> Lookup(Store(entries, key, value), other) == Lookup(entries, other)
  {
    if entries != [] && entries[0].0 != key {
      LookupStore(entries[1..], key, value, other);
    }
  }

  /** Storing keeps the keys distinct. */
  lemma StoreDistinct<V>(entries: Hash<V>, key: string, value: V)
    requires DistinctKeys(entries)
    ensures DistinctKeys(Store(entries, key, value))
  {
    if Lookup(entries, key).None? {
      LastStored(entries, key, value);
      var r := Store(entries, key, value);
      forall i, j | 0 <= i < j < |r|
        ensures r[i].0 != r[j].0
      {
        assert r[i] == entries[i];
        if j < |entries| {
          assert r[j] == entries[j];
        }
      }
    }
  }

  /** A new key is appended at the end. */
  lemma {:induction false} LastStored<V>(entries: Hash<V>, key: string, value: V)
    requires Lookup(entries, key).None?
    ensures Store(entries, key, value) == entries + [(key, value)]
  {
    if entries != [] {
      LastStored(entries[1..], key, value);
      assert entries == [entries[0]] + entries[1..];
    }
  }

  // ---------------------------------------------------------------------
  // Chunk lists

  /** The bytes of a list of chunks, in order (`chunks.join`). */
  function Concat(chunks: seq<string>): string
  {
    if chunks == [] then "" else Concat(chunks[..|chunks| - 1]) + chunks[|chunks| - 1]
  }

  /** `chunks.sum(&:bytesize)`, accumulated front to back as Ruby does. */
  function SumBytes(chunks: seq<string>): (n: nat)
    ensures n == |Concat(chunks)|
  {
    if chunks == [] then 0
    else
      ConcatSplit(chunks, 1);
      assert chunks[..1] == [chunks[0]];
      assert Concat([chunks[0]]) == Concat([]) + chunks[0];
      |chunks[0]| + SumBytes(chunks[1..])
  }

  lemma {:induction false} ConcatSplit(chunks: seq<string>, i: nat)
    requires i <= |chunks|
    ensures Concat(chunks) == Concat(chunks[..i]) + Concat(chunks[i..])
    decreases |chunks|
  {
    if i == |chunks| {
      assert chunks[..i] == chunks;
      assert chunks[i..] == [];
    } else {
      var n := |chunks| - 1;
      ConcatSplit(chunks[..n], i);
      assert chunks[..n][..i] == chunks[..i];
      assert chunks[i..][..|chunks[i..]| - 1] == chunks[..n][i..];
      assert chunks[i..][|chunks[i..]| - 1] == chunks[n];
    }
  }

  /** Taking the next chunk from the front of a list. */
  lemma ConcatFront(chunks: seq<string>)
    requires chunks != []
    ensures Concat(chunks) == chunks[0] + Concat(chunks[1..])
  {
    ConcatSplit(chunks, 1);
    assert chunks[..1] == [chunks[0]];
    assert Concat([chunks[0]]) == Concat([]) + chunks[0];
  }

  lemma AppendAssoc<T>(a: seq<T>, b: seq<T>, c: seq<T>)
    ensures (a + b) + c == a + (b + c)
  {
  }

  /** Cutting a string in two before appending more to it. */
  lemma CutAppend(s: string, n: nat, t: string)
    requires n <= |s|
    ensures s + t == s[..n] + (s[n..] + t)
  {
    assert s == s[..n] + s[n..];
  }

  // ---------------------------------------------------------------------
  // Characters: only ASCII letters change case (Ruby's downcase/upcase on
  // ASCII text; see README for non-ASCII text).

  predicate IsUpper(c: char) { 'A' <= c <= 'Z' }
  predicate IsLower(c: char) { 'a' <= c <= 'z' }
  predicate IsDigit(c: char) { '0' <= c <= '9' }
  predicate IsSpace(c: char) { c == ' ' || c == '\t' || c == '\n' || c == '\r' || c == 12 as char || c == 11 as char }

  function LowerChar(c: char): char { if IsUpper(c) then (c as int + 32) as char else c }
  function UpperChar(c: char): char { if IsLower(c) then (c as int - 32) as char else c }

  /** String#downcase. */
  function Downcase(s: string): (r: string)
    ensures |r| == |s|
    ensures forall i :: 0 <= i < |s| ==> r[i] == LowerChar(s[i])
  {
    if s == [] then [] else [LowerChar(s[0])] + Downcase(s[1..])
  }

  /** A string without upper-case letters. */
  predicate NoUpper(s: string) {
    forall i :: 0 <= i < |s| ==> !IsUpper(s[i])
  }

  /** Downcasing changes nothing in a string without upper-case letters. */
  lemma DowncaseNoUpper(s: string)
    requires NoUpper(s)
    ensures Downcase(s) == s
  {
  }

  /** A downcased string has no upper-case letters left. */
  lemma DowncaseIsLower(s: string)
    ensures NoUpper(Downcase(s)) && Downcase(Downcase(s)) == Downcase(s)
  {
    DowncaseNoUpper(Downcase(s));
  }

  /** String#upcase. */
  function Upcase(s: string): (r: string)
    ensures |r| == |s|
    ensures forall i :: 0 <= i < |s| ==> r[i] == UpperChar(s[i])
  {
    if s == [] then [] else [UpperChar(s[0])] + Upcase(s[1..])
  }

  /** String#tr with one character on each side: every `from` becomes `to`. */
  function Tr(s: string, from: char, to: char): (r: string)
    ensures |r| == |s|
    ensures forall i :: 0 <= i < |s| ==> r[i] == if s[i] == from then to else s[i]
  {
    if s == [] then [] else [if s[0] == from then to else s[0]] + Tr(s[1..], from, to)
  }

  predicate StartsWith(s: string, prefix: string) {
    |prefix| <= |s| && s[..|prefix|] == prefix
  }

  /** An unanchored match of a literal pattern. */
  predicate Contains(s: string, pattern: string) {
    StartsWith(s, pattern) || (s != [] && Contains(s[1..], pattern))
  }

  /** A string that holds the pattern somewhere contains it. */
  lemma {:induction false} ContainsInside(before: string, pattern: string, after: string)
    ensures Contains(before + pattern + after, pattern)
  {
    var s := before + pattern + after;
    if before == [] {
      assert s[..|pattern|] == pattern;
    } else {
      assert s[1..] == before[1..] + pattern + after;
      ContainsInside(before[1..], pattern, after);
    }
  }

  /** A string missing one of the pattern's characters does not contain it. */
  lemma {:induction false} MissingChar(s: string, pattern: string, j: nat)
    requires j < |pattern| && pattern[j] !in s
    ensures !Contains(s, pattern)
  {
    if |pattern| <= |s| {
      assert s[..|pattern|][j] == s[j];
    }
    if s != [] {
      assert pattern[j] !in s[1..];
      MissingChar(s[1..], pattern, j);
    }
  }

  /** A string shorter than the pattern does not contain it. */
  lemma {:induction false} TooShort(s: string, pattern: string)
    requires |s| < |pattern|
    ensures !Contains(s, pattern)
  {
    if s != [] {
      TooShort(s[1..], pattern);
    }
  }

  // ---------------------------------------------------------------------
  // Splitting and joining

  /** Index of the first `c` in `s`, or |s| when there is none. */
  function IndexOf(s: string, c: char): (i: nat)
    ensures i <= |s|
    ensures i < |s| ==> s[i] == c
    ensures forall j :: 0 <= j < i ==> s[j] != c
  {
    if s == [] then 0 else if s[0] == c then 0 else 1 + IndexOf(s[1..], c)
  }

  /**
    `s.split(c, 2)` destructured into two variables: the empty string splits
    into no pieces (both nil); otherwise the text before the first `c`, and the
    text after it when there is one (empty trailing text is kept).
  */
  function SplitFirst(s: string, c: char): (r: (Option<string>, Option<string>))
    ensures s == "" ==> r == (None, None)
    ensures s != "" ==> r.0.Some? && c !in r.0.value
    ensures s != "" && r.1.None? ==> r.0.value == s && c !in s
    ensures r.1.Some? ==> s == r.0.value + [c] + r.1.value
  {
    if s == "" then (None, None)
    else
      var i := IndexOf(s, c);
      if i == |s| then (Some(s), None)
      else
        assert s == s[..i] + [c] + s[i + 1..];
        (Some(s[..i]), Some(s[i + 1..]))
  }

  /** Every piece between occurrences of `c`, empty pieces included. */
  function Pieces(s: string, c: char): (r: seq<string>)
    ensures |r| >= 1
    ensures forall k :: 0 <= k < |r| ==> c !in r[k]
    decreases |s|
  {
    var i := IndexOf(s, c);
    if i == |s| then [s] else [s[..i]] + Pieces(s[i + 1..], c)
  }

  /** Ruby drops the empty strings at the end of a split result. */
  function DropTrailingEmpty(pieces: seq<string>): (r: seq<string>)
    ensures |r| <= |pieces| && r == pieces[..|r|]
    ensures r != [] ==> r[|r| - 1] != ""
    ensures forall k :: |r| <= k < |pieces| ==> pieces[k] == ""
  {
    if pieces == [] then []
    else if pieces[|pieces| - 1] == "" then DropTrailingEmpty(pieces[..|pieces| - 1])
    else pieces
  }

  /** `s.split(c)` without a limit. */
  function Split(s: string, c: char): seq<string>
  {
    DropTrailingEmpty(Pieces(s, c))
  }

  /** `values.join(sep)`. */
  function Join(values: seq<string>, sep: string): string
  {
    if values == [] then ""
    else if |values| == 1 then values[0]
    else Join(values[..|values| - 1], sep) + sep + values[|values| - 1]
  }

  lemma {:induction false} JoinFront(values: seq<string>, sep: string)
    requires |values| >= 2
    ensures Join(values, sep) == values[0] + sep + Join(values[1..], sep)
    decreases |values|
  {
    var n := |values| - 1;
    if |values| == 2 {
      assert values[1..] == [values[1]];
    } else {
      JoinFront(values[..n], sep);
      assert values[..n][1..] == values[1..][..|values[1..]| - 1];
      assert values[..n][0] == values[0];
    }
  }

  /** Splitting the join of separator-free pieces gives the pieces back. */
  lemma {:induction false} PiecesOfJoin(values: seq<string>, c: char)
    requires values != []
    requires forall k :: 0 <= k < |values| ==> c !in values[k]
    ensures Pieces(Join(values, [c]), c) == values
    decreases |values|
  {
    var s := Join(values, [c]);
    if |values| == 1 {
      assert IndexOf(s, c) == |s|;
    } else {
      JoinFront(values, [c]);
      var rest := Join(values[1..], [c]);
      assert s == values[0] + [c] + rest;
      assert IndexOf(s, c) == |values[0]| by {
        assert s[|values[0]|] == c;
        forall j | 0 <= j < |values[0]| ensures s[j] != c {
          assert s[j] == values[0][j];
        }
      }
      assert s[..|values[0]|] == values[0];
      assert s[|values[0]| + 1..] == rest;
      PiecesOfJoin(values[1..], c);
    }
  }

  /**
    The newline convention of rack 2 loses nothing: splitting the "\n"-join
    of non-empty, newline-free values gives back the same values in order.
  */
  lemma SplitJoinRoundTrip(values: seq<string>, c: char)
    requires forall k :: 0 <= k < |values| ==> values[k] != "" && c !in values[k]
    ensures Split(Join(values, [c]), c) == values
  {
    if values == [] {
      assert Pieces("", c) == [""];
    } else {
      PiecesOfJoin(values, c);
    }
  }

  // ---------------------------------------------------------------------
  // Integers as text

  function DigitChar(d: nat): char
    requires d < 10
  {
    ('0' as int + d) as char
  }

  function DigitValue(c: char): nat
    requires IsDigit(c)
  {
    c as int - '0' as int
  }

  /** Integer#to_s for a non-negative integer. */
  function DecimalString(n: nat): (r: string)
    ensures r != [] && (n > 0 ==> r[0] != '0')
    ensures forall i :: 0 <= i < |r| ==> IsDigit(r[i])
  {
    if n < 10 then [DigitChar(n)] else DecimalString(n / 10) + [DigitChar(n % 10)]
  }

  predicate AllDigitsBelow(s: string, base: nat) {
    forall i :: 0 <= i < |s| ==> IsDigit(s[i]) && DigitValue(s[i]) < base
  }

  /** The value of a digit string in the given base, most significant first. */
  function DigitsValue(s: string, base: nat): nat
    requires AllDigitsBelow(s, base)
  {
    if s == [] then 0 else DigitsValue(s[..|s| - 1], base) * base + DigitValue(s[|s| - 1])
  }

  /** The magnitude part of Kernel#Integer: decimal, or octal after a leading zero. */
  function ParseMagnitude(s: string): Option<nat>
  {
    if s == [] then None
    else if |s| > 1 && s[0] == '0' then
      (if AllDigitsBelow(s[1..], 8) then Some(DigitsValue(s[1..], 8)) else None)
    else if AllDigitsBelow(s, 10) then Some(DigitsValue(s, 10))
    else None
  }

  /**
    Kernel#Integer applied to a String: an optional sign and digits; a
    leading zero selects octal. Anything else raises ArgumentError.
  */
  function ParseInteger(s: string): (r: Result<int>)
    ensures r.Raised? ==> r.error.cls == ArgumentError
    ensures s == "" ==> r.Raised?
  {
    var negative := |s| > 0 && s[0] == '-';
    var digits := if |s| > 0 && (s[0] == '-' || s[0] == '+') then s[1..] else s;
    match ParseMagnitude(digits)
    case Some(m) => var v: int := if negative then 0 - (m as int) else m as int; Ok(v)
    case None => Raised(Error(ArgumentError, "invalid value for Integer(): \"" + s + "\""))
  }

  lemma {:induction false} DecimalValue(n: nat)
    ensures AllDigitsBelow(DecimalString(n), 10) && DigitsValue(DecimalString(n), 10) == n
  {
    var s := DecimalString(n);
    if n >= 10 {
      DecimalValue(n / 10);
      assert s[..|s| - 1] == DecimalString(n / 10);
    }
  }

  /** The digits `to_s` writes for a natural number read back as that number. */
  lemma DecimalMagnitude(n: nat)
    ensures ParseMagnitude(DecimalString(n)) == Some(n)
  {
    DecimalValue(n);
    var s := DecimalString(n);
    if n < 10 {
      assert |s| == 1;
    }
  }

  /** `Integer(n.to_s) == n`: a length written by `to_s` is read back unchanged. */
  lemma DecimalRoundTrip(n: nat)
    ensures ParseInteger(DecimalString(n)) == Ok(n)
  {
    DecimalMagnitude(n);
    var s := DecimalString(n);
    assert s[0] != '-' && s[0] != '+';
  }

  /** Integer#to_s. */
  function IntString(n: int): string
  {
    if n < 0 then "-" + DecimalString(-n) else DecimalString(n)
  }

  /** A minus sign in front of the digits of `m` reads back as `-m`. */
  lemma NegativeRoundTrip(m: nat)
    ensures ParseInteger("-" + DecimalString(m)) == Ok(-(m as int))
  {
    var s := "-" + DecimalString(m);
    DecimalMagnitude(m);
    assert s[1..] == DecimalString(m);
    assert ParseMagnitude(s[1..]) == Some(m);
  }

  /** `Integer(n.to_s) == n` for every integer, negative ones included. */
  lemma IntRoundTrip(n: int)
    ensures ParseInteger(IntString(n)) == Ok(n)
  {
    if n < 0 {
      NegativeRoundTrip(-n);
    } else {
      DecimalRoundTrip(n);
    }
  }
}
