/** Three validators of synchronization paths: the native broker's (Rust), the gateway's (TypeScript)
    and the MEGA bridge's (C++). Strings are ASCII, so lengths in bytes and in UTF-16 units agree. */
module SyncPaths {
  import opened Common

  const ROOT := ".omnia-reader"
  const BROKER_MAX := 1024
  const GATEWAY_MAX := 2048
  const BRIDGE_MAX := 2048

  // ----- segments -----

  function Split(s: string): (segments: seq<string>)
    ensures segments != []
  {
    if s == "" then [""]
    else if s[0] == '/' then [""] + Split(s[1..])
    else
      var rest := Split(s[1..]);
      [[s[0]] + rest[0]] + rest[1..]
  }

  function Join(segments: seq<string>): string
    requires segments != []
  {
    if |segments| == 1 then segments[0] else segments[0] + "/" + Join(segments[1..])
  }

  lemma {:induction false} JoinSplit(s: string)
    ensures Join(Split(s)) == s
  {
    if s != "" {
      JoinSplit(s[1..]);
      var rest := Split(s[1..]);
      if s[0] == '/' {
        assert Split(s)[1..] == rest;
        assert Join(Split(s)) == "" + "/" + Join(rest);
      } else {
        var all := Split(s);
        assert all[0] == [s[0]] + rest[0] && all[1..] == rest[1..];
        assert Join(all) == [s[0]] + Join(rest);
      }
    }
  }

  lemma {:induction false} SplitAt(s: string, i: nat)
    requires i < |s| && s[i] == '/' && forall j | 0 <= j < i :: s[j] != '/'
    ensures Split(s) == [s[..i]] + Split(s[i + 1..])
  {
    if i > 0 {
      SplitAt(s[1..], i - 1);
      assert s[1..][..i - 1] == s[1..i];
      assert s[1..][i..] == s[i + 1..];
      assert [s[0]] + s[1..i] == s[..i];
    }
  }

  lemma {:induction false} SplitWhole(s: string)
    requires forall j | 0 <= j < |s| :: s[j] != '/'
    ensures Split(s) == [s]
  {
    if s != "" {
      SplitWhole(s[1..]);
      assert [s[0]] + s[1..] == s;
    }
  }

  lemma {:induction false} SegmentsWithin(s: string, c: char)
    requires c !in s
    ensures forall i | 0 <= i < |Split(s)| :: c !in Split(s)[i]
  {
    if s != "" {
      SegmentsWithin(s[1..], c);
    }
  }

  /** The first segment is the root exactly when the path is the root or lies below it. */
  lemma FirstSegment(s: string, root: string)
    requires '/' !in root
    ensures Split(s)[0] == root <==> s == root || root + "/" <= s
  {
    if root + "/" <= s { BelowHasSlash(s, root); }
    if exists i | 0 <= i < |s| :: s[i] == '/' {
      var i := FirstSlash(s);
      SplitAt(s, i);
      if s[..i] == root {
        assert s[..i + 1] == root + "/";
      }
      if root + "/" <= s {
        assert s[|root|] == '/';
        assert s[..|root|] == root;
        assert i == |root|;
      }
    } else {
      SplitWhole(s);
    }
  }

  lemma BelowHasSlash(s: string, root: string)
    requires root + "/" <= s
    ensures exists i | 0 <= i < |s| :: s[i] == '/'
  {
    assert s[|root|] == '/';
  }

  lemma {:induction false} FirstSlash(s: string) returns (i: nat)
    requires exists i | 0 <= i < |s| :: s[i] == '/'
    ensures i < |s| && s[i] == '/' && forall j | 0 <= j < i :: s[j] != '/'
  {
    i := 0;
    while s[i] != '/'
      invariant i < |s| && forall j | 0 <= j < i :: s[j] != '/'
      decreases |s| - i
    {
      i := i + 1;
    }
  }

  // ----- percent escapes -----

  function HexValue(c: char): Option<nat> {
    if '0' <= c <= '9' then Some(c as int - '0' as int)
    else if 'a' <= c <= 'f' then Some(c as int - 'a' as int + 10)
    else if 'A' <= c <= 'F' then Some(c as int - 'A' as int + 10)
    else None
  }

  /** Exactly the digits of either case have their value. */
  lemma HexDigits(c: char, n: nat)
    ensures HexValue(c) == Some(n) <==> n < 16 && (c == "0123456789abcdef"[n] || c == "0123456789ABCDEF"[n])
  {
  }

  /** NUL, '%', '/' and '\\' must not be smuggled in as escapes. */
  predicate Forbidden(byte: nat) {
    byte == 0 || byte == 0x25 || byte == 0x2f || byte == 0x5c
  }

  /** A '%' that does not start an escape, or an escape of a forbidden byte. */
  predicate Unsafe(s: string) {
    if s == "" then false
    else if s[0] != '%' then Unsafe(s[1..])
    else if |s| < 3 || HexValue(s[1]).None? || HexValue(s[2]).None? then true
    else Forbidden(16 * HexValue(s[1]).value + HexValue(s[2]).value) || Unsafe(s[3..])
  }

  lemma UnsafeAt(s: string, i: nat)
    requires i < |s|
    ensures Unsafe(s[i..]) <==>
              if s[i] != '%' then Unsafe(s[i + 1..])
              else if i + 2 >= |s| || HexValue(s[i + 1]).None? || HexValue(s[i + 2]).None? then true
              else Forbidden(16 * HexValue(s[i + 1]).value + HexValue(s[i + 2]).value) || Unsafe(s[i + 3..])
  {
  }

  /** The broker's scanner, over bytes. */
  method ContainsUnsafePercentEncoding(s: string) returns (unsafe: bool)
    ensures unsafe <==> Unsafe(s)
  {
    var index := 0;
    assert s[0..] == s;
    while index < |s|
      invariant 0 <= index <= |s| && (Unsafe(s) <==> Unsafe(s[index..]))
    {
      UnsafeAt(s, index);
      if s[index] != '%' {
        index := index + 1;
        continue;
      }
      if index + 2 >= |s| { return true; }
      var high := HexValue(s[index + 1]);
      if high.None? { return true; }
      var low := HexValue(s[index + 2]);
      if low.None? { return true; }
      if Forbidden(16 * high.value + low.value) { return true; }
      index := index + 3;
    }
    return false;
  }

  /** The gateway's scanner: a slice of two characters that must be two hexadecimal digits. */
  method HasUnsafePercentEncoding(s: string) returns (unsafe: bool)
    ensures unsafe <==> Unsafe(s)
  {
    var index := 0;
    assert s[0..] == s;
    while index < |s|
      invariant 0 <= index <= |s| && (Unsafe(s) <==> Unsafe(s[index..]))
      decreases |s| - index
    {
      UnsafeAt(s, index);
      if s[index] != '%' {
        index := index + 1;
        continue;
      }
      var to := if index + 3 <= |s| then index + 3 else |s|;
      var encodedByte := s[index + 1..to];
      if |encodedByte| != 2 || HexValue(encodedByte[0]).None? || HexValue(encodedByte[1]).None? { return true; }
      var byte := 16 * HexValue(encodedByte[0]).value + HexValue(encodedByte[1]).value;
      if byte == 0 || byte == 0x25 || byte == 0x2f || byte == 0x5c { return true; }
      index := index + 2;
      index := index + 1;
    }
    return false;
  }

  lemma {:induction false} NoPercentIsSafe(s: string)
    requires '%' !in s
    ensures !Unsafe(s)
  {
    if s != "" { NoPercentIsSafe(s[1..]); }
  }

  // ----- the three validators -----

  predicate PlainSegment(segment: string) {
    segment != "" && segment != "." && segment != ".."
  }

  predicate SafeSegments(s: string) {
    forall i | 0 <= i < |Split(s)| :: PlainSegment(Split(s)[i]) && !Unsafe(Split(s)[i])
  }

  predicate BrokerAcceptsPath(s: string) {
    && s != "" && |s| <= BROKER_MAX && ROOT + "/" <= s
    && '\\' !in s && '\0' !in s && SafeSegments(s)
  }

  predicate BrokerAcceptsPrefix(s: string) {
    s == ROOT || BrokerAcceptsPath(s)
  }

  predicate GatewayAccepts(s: string) {
    && s != "" && |s| <= GATEWAY_MAX && '\\' !in s && '\0' !in s
    && SafeSegments(s) && (s == ROOT || ROOT + "/" <= s)
  }

  predicate BridgeAccepts(s: string) {
    && s != "" && |s| <= BRIDGE_MAX && '\\' !in s && '%' !in s && '\0' !in s
    && PlainSegments(s) && Split(s)[0] == ROOT
  }

  predicate PlainSegments(s: string) {
    forall i | 0 <= i < |Split(s)| :: PlainSegment(Split(s)[i])
  }

  lemma BadSegment(value: string, found: seq<string>, segment: string, rest: seq<string>)
    requires Split(value) == found + ([segment] + rest) && !PlainSegment(segment)
    ensures !PlainSegments(value)
  {
    assert Split(value)[|found|] == segment;
  }

  /** Plain segments have been cut up to `begin`. */
  ghost predicate CutSoFar(value: string, found: seq<string>, begin: nat)
    requires begin <= |value|
  {
    Split(value) == found + Split(value[begin..]) && forall i | 0 <= i < |found| :: PlainSegment(found[i])
  }

  lemma CutNext(value: string, found: seq<string>, begin: nat, end: nat)
    requires begin <= |value| && CutSoFar(value, found, begin)
    requires begin <= end < |value| && value[end] == '/' && forall j | begin <= j < end :: value[j] != '/'
    ensures PlainSegment(value[begin..end]) ==> CutSoFar(value, found + [value[begin..end]], end + 1)
    ensures !PlainSegment(value[begin..end]) ==> !PlainSegments(value)
  {
    var segment, tail := value[begin..end], Split(value[end + 1..]);
    SplitFrom(value, begin, end);
    AppendSegment(found, segment, tail);
    if !PlainSegment(segment) { BadSegment(value, found, segment, tail); }
  }

  lemma SplitFrom(value: string, begin: nat, end: nat)
    requires begin <= end < |value| && value[end] == '/' && forall j | begin <= j < end :: value[j] != '/'
    ensures Split(value[begin..]) == [value[begin..end]] + Split(value[end + 1..])
  {
    var rest := value[begin..];
    SplitAt(rest, end - begin);
    assert rest[..end - begin] == value[begin..end];
    assert rest[end - begin + 1..] == value[end + 1..];
  }

  lemma AppendSegment(found: seq<string>, segment: string, tail: seq<string>)
    ensures found + ([segment] + tail) == (found + [segment]) + tail
  {
  }

  lemma CutLast(value: string, found: seq<string>, begin: nat)
    requires begin <= |value| && CutSoFar(value, found, begin)
    requires forall j | begin <= j < |value| :: value[j] != '/'
    ensures Split(value) == found + [value[begin..]]
    ensures PlainSegments(value) <==> PlainSegment(value[begin..])
  {
    SplitWhole(value[begin..]);
    assert [value[begin..]] + [] == [value[begin..]];
    if !PlainSegment(value[begin..]) { BadSegment(value, found, value[begin..], []); }
  }

  /** The loop of the bridge's parser: segments are cut at each separator. */
  method CutSegments(value: string) returns (segments: Option<seq<string>>)
    ensures segments.Some? <==> PlainSegments(value)
    ensures segments.Some? ==> segments.value == Split(value)
  {
    var found: seq<string> := [];
    var begin := 0;
    assert value[0..] == value;
    while begin <= |value|
      invariant 0 <= begin <= |value| && CutSoFar(value, found, begin)
      decreases |value| - begin
    {
      var separator := Find(value, begin);
      var end := if separator.None? then |value| else separator.value;
      var segment := value[begin..end];
      if separator.None? {
        CutLast(value, found, begin);
        assert value[begin..|value|] == value[begin..];
      } else {
        CutNext(value, found, begin, end);
      }
      if segment == "" || segment == "." || segment == ".." { return None; }
      found := found + [segment];
      if separator.None? { return Some(found); }
      begin := end + 1;
    }
  }

  /** The bridge's parser; the first segment must be the root. */
  method ParseLogicalPath(value: string) returns (segments: Option<seq<string>>)
    ensures segments.Some? <==> BridgeAccepts(value)
    ensures segments.Some? ==> segments.value == Split(value)
  {
    if value == "" || |value| > BRIDGE_MAX || '\\' in value || '%' in value || '\0' in value { return None; }
    segments := CutSegments(value);
    if segments.Some? && segments.value[0] != ROOT { return None; }
  }

  method Find(s: string, begin: nat) returns (i: Option<nat>)
    requires begin <= |s|
    ensures i.None? ==> forall j | begin <= j < |s| :: s[j] != '/'
    ensures i.Some? ==> begin <= i.value < |s| && s[i.value] == '/' && forall j | begin <= j < i.value :: s[j] != '/'
  {
    for k := begin to |s|
      invariant forall j | begin <= j < k :: s[j] != '/'
    {
      if s[k] == '/' { return Some(k); }
    }
    return None;
  }

  // ----- how they agree -----

  /** Whatever the broker lets through, the gateway accepts; the broker's extra demands are its shorter
      limit and, for paths, something below the root. */
  lemma BrokerWithinGateway(s: string)
    ensures BrokerAcceptsPrefix(s) ==> GatewayAccepts(s)
    ensures BrokerAcceptsPath(s) <==> GatewayAccepts(s) && |s| <= BROKER_MAX && s != ROOT
  {
    RootIsAccepted();
    if s == ROOT {
      assert !(ROOT + "/" <= s);
    }
  }

  lemma RootIsAccepted()
    ensures GatewayAccepts(ROOT)
  {
    var chars := ['.', 'o', 'm', 'n', 'i', 'a', '-', 'r', 'e', 'a', 'd', 'e', 'r'];
    assert ROOT == chars;
    assert '/' !in chars && '%' !in chars && '\\' !in chars && '\0' !in chars;
    OneSafeSegment(ROOT);
  }

  lemma OneSafeSegment(s: string)
    requires '/' !in s && '%' !in s && PlainSegment(s)
    ensures SafeSegments(s)
  {
    SplitWhole(s);
    NoPercentIsSafe(s);
  }

  /** The gateway and the bridge differ only in escapes: the bridge takes none. */
  lemma BridgeIsGatewayWithoutEscapes(s: string)
    ensures BridgeAccepts(s) <==> GatewayAccepts(s) && '%' !in s
  {
    assert ROOT == ['.', 'o', 'm', 'n', 'i', 'a', '-', 'r', 'e', 'a', 'd', 'e', 'r'];
    FirstSegment(s, ROOT);
    if '%' !in s {
      SegmentsWithin(s, '%');
      forall i | 0 <= i < |Split(s)| ensures !Unsafe(Split(s)[i]) {
        NoPercentIsSafe(Split(s)[i]);
      }
    }
  }

  /** The segments of an accepted path join back to the path. */
  lemma BridgeSegmentsRoundTrip(s: string)
    requires BridgeAccepts(s)
    ensures Join(Split(s)) == s && Split(s)[0] == ROOT
  {
    JoinSplit(s);
  }
}
