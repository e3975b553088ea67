/** Names under which services appear in the graph: the request and response topics
    built from a service name, and the service type recovered from a message type. */
module ServiceNames {
  import opened Common

  // ---------------------------------------------------------------- topics

  datatype Prefix = Rq | Rr {
    function Text(): (s: string)
      ensures |s| == 2 && '/' !in s
    {
      match this case Rq => "rq" case Rr => "rr"
    }
  }

  function ServiceTopic(name: string, p: Prefix): string {
    if |name| > 0 && name[0] == '/'
    then "/" + p.Text() + "/" + name[1..]
    else p.Text() + "/" + name
  }

  /** `service_name_from_topic`: the rooted form is tried first. */
  function NameFromTopic(topic: string, p: Prefix): Option<string> {
    if |topic| > 3 && topic[0] == '/' && topic[1..3] == p.Text() && topic[3] == '/' then
      Some(topic[3..])
    else if |topic| > 2 && topic[..2] == p.Text() && topic[2] == '/' then
      Some(topic[3..])
    else None
  }

  /** The topics that decode to `name` under `p`: the one built from `name`, and for a
      rooted name also the unrooted spelling `rq//x`. No other topic does. */
  lemma NameFromTopicIff(topic: string, p: Prefix, name: string)
    ensures NameFromTopic(topic, p) == Some(name) <==>
            topic == ServiceTopic(name, p) ||
            (|name| > 0 && name[0] == '/' && topic == p.Text() + "/" + name)
  {
    var t := p.Text();
    if NameFromTopic(topic, p) == Some(name) {
      if |topic| > 3 && topic[0] == '/' && topic[1..3] == t && topic[3] == '/' {
        assert topic == "/" + topic[1..3] + "/" + topic[4..];
        assert name[1..] == topic[4..];
      } else {
        assert topic == topic[..2] + "/" + topic[3..];
      }
    }
    if topic == ServiceTopic(name, p) {
      if |name| > 0 && name[0] == '/' {
        assert topic[1..3] == t;
        assert topic[3..] == name;
      } else {
        assert topic[..2] == t && topic[3..] == name;
        assert topic[0] != '/';
      }
    }
    if |name| > 0 && name[0] == '/' && topic == t + "/" + name {
      assert topic[..2] == t && topic[3..] == name;
      assert topic[0] != '/';
    }
  }

  /** Decoding inverts encoding for every name and never accepts the other prefix. */
  lemma TopicRoundTrip(name: string, p: Prefix, q: Prefix)
    ensures NameFromTopic(ServiceTopic(name, p), q) == if p == q then Some(name) else None
  {
    NameFromTopicIff(ServiceTopic(name, p), p, name);
    if p != q {
      var topic := ServiceTopic(name, p);
      if |name| > 0 && name[0] == '/' {
        assert topic[1..3] == p.Text() && topic[1] == 'r';
        assert topic[2] == p.Text()[1];
        assert topic[..2] == ['/', 'r'];
      } else {
        assert topic[..2] == p.Text();
        assert topic[0] == 'r';
      }
    }
  }

  /** Different services, or different directions of one service, never share a topic. */
  lemma TopicInjective(n1: string, p1: Prefix, n2: string, p2: Prefix)
    requires ServiceTopic(n1, p1) == ServiceTopic(n2, p2)
    ensures n1 == n2 && p1 == p2
  {
    TopicRoundTrip(n1, p1, p2);
    TopicRoundTrip(n2, p2, p2);
  }

  // ------------------------------------------------------------ type names

  /** Two underscores meet at i. */
  predicate Double(s: string, i: nat) { i + 1 < |s| && s[i] == '_' && s[i + 1] == '_' }

  /** Every `__`, taken greedily from the left, becomes a slash; the text from i on. */
  function DemangleFrom(s: string, i: nat): (d: string)
    requires i <= |s|
    ensures |d| <= |s| - i
    decreases |s| - i
  {
    if i == |s| then ""
    else if Double(s, i) then "/" + DemangleFrom(s, i + 2)
    else [s[i]] + DemangleFrom(s, i + 1)
  }

  function DemangleNamespace(s: string): string { DemangleFrom(s, 0) }

  function TypeName(ns: string, name: string): string {
    var d := DemangleNamespace(ns);
    if ns == "" then name
    else if d[|d| - 1..] == "/" then d + name
    else d + "/" + name
  }

  function Join(parts: seq<string>, sep: string): string
    requires parts != []
  {
    if |parts| == 1 then parts[0] else parts[0] + sep + Join(parts[1..], sep)
  }

  predicate HasDoubleUnderscore(s: string) { exists i | 0 <= i < |s| :: Double(s, i) }

  predicate EndsIn(s: string, c: char) { |s| > 0 && s[|s| - 1] == c }

  /** The first place from i on where two underscores meet, or |s| when they never do. */
  function FirstDouble(s: string, i: nat): (k: nat)
    requires i <= |s|
    ensures i <= k <= |s| && (k < |s| ==> Double(s, k))
    ensures forall j :: i <= j < k ==> !Double(s, j)
    decreases |s| - i
  {
    if i == |s| || Double(s, i) then i else FirstDouble(s, i + 1)
  }

  lemma Regroup(a: string, b: string, c: string)
    ensures a + (b + c) == (a + b) + c
  {
  }

  lemma SamePrefix(p: string, x: string, y: string)
    ensures p + x == p + y <==> x == y
  {
    assert (p + x)[|p|..] == x && (p + y)[|p|..] == y;
  }

  /** Up to the first double underscore the text is copied unchanged. */
  lemma {:induction false} DemangleCopies(s: string, i: nat, j: nat)
    requires i <= j <= |s|
    requires forall k :: i <= k < j ==> !Double(s, k)
    ensures DemangleFrom(s, i) == s[i..j] + DemangleFrom(s, j)
    decreases j - i
  {
    if i < j {
      assert !Double(s, i);
      DemangleCopies(s, i + 1, j);
      Regroup([s[i]], s[i + 1..j], DemangleFrom(s, j));
      assert s[i..j] == [s[i]] + s[i + 1..j];
    }
  }

  /** What is before i does not matter. */
  lemma {:induction false} DemangleShift(p: string, t: string, i: nat)
    requires i <= |t|
    ensures DemangleFrom(p + t, |p| + i) == DemangleFrom(t, i)
    decreases |t| - i
  {
    if i < |t| {
      assert (p + t)[|p| + i] == t[i];
      assert Double(p + t, |p| + i) <==> Double(t, i);
      DemangleShift(p, t, if Double(t, i) then i + 2 else i + 1);
    }
  }

  /** The text before the first double underscore stays, then comes a slash. */
  lemma DemangleSplits(c: string, rest: string) returns (i: nat)
    ensures i <= |c| && (i < |c| ==> c[i] == '_' && (Double(c, i) || i == |c| - 1))
    ensures i == |c| ==> !HasDoubleUnderscore(c) && !EndsIn(c, '_')
    ensures DemangleNamespace(c + "__" + rest) == c[..i] + ("/" + DemangleFrom(c + "__" + rest, i + 2))
  {
    var s := c + "__" + rest;
    i := FirstDouble(s, 0);
    assert s[|c|] == '_' && s[|c| + 1] == '_' && Double(s, |c|);
    assert forall k :: 0 <= k < |c| ==> s[k] == c[k];
    DemangleCopies(s, 0, i);
    assert s[0..i] == c[..i];
    if i == |c| {
      forall k | 0 <= k < |c| ensures !Double(c, k) { assert !Double(s, k); }
      if |c| > 0 { assert !Double(s, |c| - 1); }
    } else {
      assert Double(s, i);
    }
  }

  /** A leading component survives demangling exactly when no two underscores meet in
      it or between it and the separator. */
  lemma DemangleHead(c: string, rest: string, tail: string)
    ensures DemangleNamespace(c + "__" + rest) == c + "/" + tail <==>
            !HasDoubleUnderscore(c) && !EndsIn(c, '_') && DemangleNamespace(rest) == tail
  {
    var i := DemangleSplits(c, rest);
    var d := DemangleNamespace(c + "__" + rest);
    if i == |c| {
      DemangleShift(c + "__", rest, 0);
      assert c[..i] == c;
      Regroup(c, "/", DemangleNamespace(rest));
      SamePrefix(c + "/", DemangleNamespace(rest), tail);
    } else {
      assert d[i] == '/' && (c + "/" + tail)[i] == '_';
      assert Double(c, i) ==> HasDoubleUnderscore(c);
      assert i == |c| - 1 ==> EndsIn(c, '_');
    }
  }

  lemma DemangleOne(c: string)
    ensures DemangleNamespace(c) == c <==> !HasDoubleUnderscore(c)
  {
    var i := FirstDouble(c, 0);
    DemangleCopies(c, 0, i);
    if i < |c| {
      assert Double(c, i) && DemangleFrom(c, i)[0] == '/';
      assert DemangleNamespace(c)[i] == '/';
    } else {
      assert c[0..|c|] == c;
    }
  }

  predicate Demanglable(parts: seq<string>) {
    && (forall i :: 0 <= i < |parts| ==> !HasDoubleUnderscore(parts[i]))
    && (forall i :: 0 <= i < |parts| - 1 ==> !EndsIn(parts[i], '_'))
  }

  /** Demangling inverts joining with `__` for exactly the component lists in which no
      component holds `__` and none but the last ends in an underscore. */
  lemma {:induction false} DemangleInvertsJoinIff(parts: seq<string>)
    requires parts != []
    ensures DemangleNamespace(Join(parts, "__")) == Join(parts, "/") <==> Demanglable(parts)
  {
    var c := parts[0];
    if |parts| == 1 {
      DemangleOne(c);
    } else {
      var rest := parts[1..];
      DemangleInvertsJoinIff(rest);
      DemangleHead(c, Join(rest, "__"), Join(rest, "/"));
      assert Demanglable(parts) <==>
             !HasDoubleUnderscore(c) && !EndsIn(c, '_') && Demanglable(rest) by {
        assert parts == [c] + rest;
        assert forall i :: 0 < i < |parts| ==> parts[i] == rest[i - 1];
        assert forall i :: 0 <= i < |rest| ==> rest[i] == parts[i + 1];
      }
    }
  }

  lemma {:induction false} JoinEnd(parts: seq<string>, sep: string)
    requires parts != [] && parts[|parts| - 1] != ""
    ensures var j, last := Join(parts, sep), parts[|parts| - 1];
            j != "" && j[|j| - 1] == last[|last| - 1]
  {
    if |parts| > 1 {
      JoinEnd(parts[1..], sep);
    }
  }

  /** The graph shows `pkg/srv/Name` for members declared in namespace `pkg__srv`. */
  lemma TypeNameOfJoined(parts: seq<string>, name: string)
    requires parts != [] && Demanglable(parts)
    requires parts[|parts| - 1] != "" && !EndsIn(parts[|parts| - 1], '/')
    ensures TypeName(Join(parts, "__"), name) == Join(parts, "/") + "/" + name
  {
    DemangleInvertsJoinIff(parts);
    JoinEnd(parts, "/");
    JoinEnd(parts, "__");
    var d := Join(parts, "/");
    assert d[|d| - 1..] == [d[|d| - 1]];
  }

  /** The namespace loop of `extract_type_name_from_members`. */
  method DemangleInto(ns: string, buffer: array<char>) returns (outIdx: nat)
    requires |ns| <= buffer.Length
    modifies buffer
    ensures outIdx <= |ns|
    ensures buffer[..outIdx] == DemangleNamespace(ns)
  {
    outIdx := 0;
    var idx := 0;
    while idx < |ns|
      invariant outIdx <= idx <= |ns|
      invariant DemangleNamespace(ns) == buffer[..outIdx] + DemangleFrom(ns, idx)
    {
      ghost var done := buffer[..outIdx];
      ghost var (piece, next) := if Double(ns, idx) then ("/", idx + 2) else ([ns[idx]], idx + 1);
      Regroup(done, piece, DemangleFrom(ns, next));
      if ns[idx] == '_' && idx + 1 < |ns| && ns[idx + 1] == '_' {
        buffer[outIdx] := '/';
        idx := idx + 2;
      } else {
        buffer[outIdx] := ns[idx];
        idx := idx + 1;
      }
      assert buffer[..outIdx + 1] == done + [buffer[outIdx]];
      outIdx := outIdx + 1;
    }
  }

  /** `memcpy(buffer + at, text, strlen(text))` */
  method CopyInto(text: string, buffer: array<char>, at: nat)
    requires at + |text| <= buffer.Length
    modifies buffer
    ensures buffer[..at + |text|] == old(buffer[..at]) + text
  {
    for k := 0 to |text|
      invariant buffer[..at + k] == old(buffer[..at]) + text[..k]
    {
      buffer[at + k] := text[k];
      assert buffer[..at + k + 1] == buffer[..at + k] + [text[k]];
    }
  }

  /** `extract_type_name_from_members`: the buffer is sized before the namespace is
      demangled, and every write stays inside it. `ns` is empty for a NULL namespace. */
  method ExtractTypeName(ns: string, name: string) returns (buffer: array<char>, len: nat)
    ensures fresh(buffer) && len < buffer.Length && buffer[len] == '\0'
    ensures buffer[..len] == TypeName(ns, name)
  {
    buffer := new char[|ns| + (if |ns| > 0 then 1 else 0) + |name| + 1];
    var outIdx := 0;
    if |ns| > 0 {
      outIdx := DemangleInto(ns, buffer);
      if outIdx == 0 || buffer[outIdx - 1] != '/' {
        ghost var d := buffer[..outIdx];
        buffer[outIdx] := '/';
        outIdx := outIdx + 1;
        assert buffer[..outIdx] == d + "/";
      }
    }
    CopyInto(name, buffer, outIdx);
    len := outIdx + |name|;
    ghost var text := buffer[..len];
    buffer[len] := '\0';
    assert buffer[..len] == text;
  }

  // ---------------------------------------------------------- service types

  /** The position after the last slash (`strrchr`). */
  function BaseIndex(s: string): (i: nat)
    ensures i <= |s|
    ensures i > 0 ==> s[i - 1] == '/'
    ensures '/' !in s[i..]
  {
    if s == "" then 0
    else if s[|s| - 1] == '/' then |s|
    else BaseIndex(s[..|s| - 1])
  }

  const REQUEST_SUFFIX: string := "_Request"
  const RESPONSE_SUFFIX: string := "_Response"

  /** The type with `suffix` cut off, when its base name is longer than `suffix` and ends in it. */
  function StripSuffix(messageType: string, suffix: string): Option<string> {
    var base := messageType[BaseIndex(messageType)..];
    if |base| > |suffix| && base[|base| - |suffix|..] == suffix
    then Some(messageType[..|messageType| - |suffix|])
    else None
  }

  /** `service_type_from_message_type` */
  function ServiceType(messageType: string): Option<string> {
    match StripSuffix(messageType, REQUEST_SUFFIX)
    case Some(s) => Some(s)
    case None => StripSuffix(messageType, RESPONSE_SUFFIX)
  }

  lemma {:induction false} BaseIndexAppend(s: string, suffix: string)
    requires '/' !in suffix
    ensures BaseIndex(s + suffix) == BaseIndex(s)
    decreases |suffix|
  {
    if suffix == "" {
      assert s + suffix == s;
    } else {
      var t := s + suffix;
      assert t[|t| - 1] == suffix[|suffix| - 1] && suffix[|suffix| - 1] in suffix;
      assert t[..|t| - 1] == s + suffix[..|suffix| - 1];
      BaseIndexAppend(s, suffix[..|suffix| - 1]);
    }
  }

  predicate IsTypePath(s: string) { s != "" && !EndsIn(s, '/') }

  lemma StripSuffixIff(messageType: string, suffix: string, s: string)
    requires '/' !in suffix
    ensures StripSuffix(messageType, suffix) == Some(s) <==> IsTypePath(s) && messageType == s + suffix
  {
    var b := BaseIndex(messageType);
    var base := messageType[b..];
    if StripSuffix(messageType, suffix) == Some(s) {
      assert base[|base| - |suffix|..] == messageType[|s|..];
      assert messageType == s + messageType[|s|..];
      assert s[|s| - 1] in base by { assert base[|s| - 1 - b] == s[|s| - 1]; }
    }
    if IsTypePath(s) && messageType == s + suffix {
      BaseIndexAppend(s, suffix);
      assert base[|base| - |suffix|..] == messageType[|s|..] == suffix;
      assert messageType[..|s|] == s;
    }
  }

  /** A message type names a service exactly when it is that service's type with
      `_Request` or `_Response` appended. */
  lemma ServiceTypeIff(messageType: string, s: string)
    ensures ServiceType(messageType) == Some(s) <==>
            IsTypePath(s) && (messageType == s + REQUEST_SUFFIX || messageType == s + RESPONSE_SUFFIX)
  {
    StripSuffixIff(messageType, REQUEST_SUFFIX, s);
    StripSuffixIff(messageType, RESPONSE_SUFFIX, s);
    var request := StripSuffix(messageType, REQUEST_SUFFIX);
    if request.Some? {
      StripSuffixIff(messageType, REQUEST_SUFFIX, request.value);
      assert messageType[|messageType| - 1] == 't';
    }
  }
}
