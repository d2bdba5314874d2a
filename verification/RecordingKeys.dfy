/**
 Object keys of recordings and transcripts, the metadata keys they stand for, and the key layout of
 the telephony service.
 */
module RecordingKeys {
  import opened Wrappers
  import opened Digits
  import opened Strings

  // --- Path components ------------------------------------------------------------

  predicate Free(s: string, c: char) { forall i | 0 <= i < |s| :: s[i] != c }

  /** The position of the first `c`, or the length. */
  function Find(s: string, c: char): (k: nat)
    ensures k <= |s| && (k < |s| ==> s[k] == c) && forall i | 0 <= i < k :: s[i] != c
  {
    if s == "" || s[0] == c then 0 else 1 + Find(s[1..], c)
  }

  function Split(s: string): (parts: seq<string>)
    ensures parts != []
    decreases |s|
  {
    var k := Find(s, '/');
    if k == |s| then [s] else [s[..k]] + Split(s[k + 1..])
  }

  function JoinPath(parts: seq<string>): string { Join(parts, "/") }

  ghost predicate Components(parts: seq<string>) { parts != [] && forall i | 0 <= i < |parts| :: Free(parts[i], '/') }

  lemma SplitCons(a: string, rest: string)
    requires Free(a, '/')
    ensures Split(a + ("/" + rest)) == [a] + Split(rest)
  {
    var s := a + ("/" + rest);
    assert s[|a|] == '/';
    assert forall i | 0 <= i < |a| :: s[i] == a[i];
    assert Find(s, '/') == |a|;
    assert s[..|a|] == a && s[|a| + 1..] == rest;
  }

  /** Splitting and joining are inverse to each other. */
  lemma {:induction false} SplitJoin(parts: seq<string>)
    requires Components(parts)
    ensures Split(JoinPath(parts)) == parts
  {
    if |parts| > 1 {
      SplitJoin(parts[1..]);
      SplitCons(parts[0], JoinPath(parts[1..]));
    } else {
      assert Find(parts[0], '/') == |parts[0]|;
    }
  }

  lemma {:induction false} JoinSplit(s: string)
    ensures JoinPath(Split(s)) == s && Components(Split(s))
    decreases |s|
  {
    var k := Find(s, '/');
    if k < |s| {
      JoinSplit(s[k + 1..]);
      assert Split(s)[1..] == Split(s[k + 1..]);
      assert s == s[..k] + ("/" + s[k + 1..]);
    }
  }

  predicate EndsWith(s: string, t: string) { |s| >= |t| && s[|s| - |t|..] == t }

  function Stem(s: string, ext: string): string
    requires EndsWith(s, ext)
  {
    s[..|s| - |ext|]
  }

  // --- Recording and transcript keys ---------------------------------------------------

  datatype Kind = Outbound | Inbound

  datatype KeyInfo = KeyInfo(kind: Kind, employeeId: string, seqOrContact: string, transcriptKey: string, metaPk: string, metaSk: string)

  /** A name that can be a path component. */
  predicate IsName(s: string) { s != "" && Free(s, '/') }

  predicate IsNumeral(s: string) { s != "" && AllDigits(s) }

  function OutboundKey(dir: string, cycle: string, emp: string, seqNo: string, ext: string): string {
    JoinPath([dir, cycle, emp, seqNo + ext])
  }

  function InboundKey(month: string, emp: string, contact: string, ext: string): string {
    JoinPath(["inbound", month, emp, contact + ext])
  }

  function OutboundInfo(cycle: string, emp: string, seqNo: string, transcriptKey: string): KeyInfo {
    KeyInfo(Outbound, emp, seqNo, transcriptKey, cycle, emp + ("#" + seqNo))
  }

  function InboundInfo(emp: string, contact: string, transcriptKey: string): KeyInfo {
    KeyInfo(Inbound, emp, contact, transcriptKey, "INBOUND#" + contact, emp + "#0")
  }

  /** What both parsers find: the components between the directory and the extension. */
  datatype Found = FoundOutbound(cycle: string, emp: string, seqNo: string) | FoundInbound(month: string, emp: string, contact: string)

  function Recognise(key: string, dir: string, ext: string): Option<Found> {
    var p := Split(key);
    if |p| != 4 || p[1] == "" || p[2] == "" || !EndsWith(p[3], ext) then None
    else
      var stem := Stem(p[3], ext);
      if p[0] == dir && IsNumeral(stem) then Some(FoundOutbound(p[1], p[2], stem))
      else if p[0] == "inbound" && |p[1]| == 6 && AllDigits(p[1]) && stem != "" then Some(FoundInbound(p[1], p[2], stem))
      else None
  }

  function ParseRecordingKey(key: string): Option<KeyInfo> {
    match Recognise(key, "recordings", ".wav")
    case None => None
    case Some(FoundOutbound(c, e, s)) => Some(OutboundInfo(c, e, s, OutboundKey("transcripts", c, e, s, ".json")))
    case Some(FoundInbound(m, e, c)) => Some(InboundInfo(e, c, InboundKey(m, e, c, ".json")))
  }

  function ParseTranscriptKey(key: string): Option<KeyInfo> {
    match Recognise(key, "transcripts", ".json")
    case None => None
    case Some(FoundOutbound(c, e, s)) => Some(OutboundInfo(c, e, s, key))
    case Some(FoundInbound(_, e, c)) => Some(InboundInfo(e, c, key))
  }

  lemma FourParts(a: string, b: string, c: string, d: string)
    requires Free(a, '/') && Free(b, '/') && Free(c, '/') && Free(d, '/')
    ensures Split(JoinPath([a, b, c, d])) == [a, b, c, d]
  {
    SplitJoin([a, b, c, d]);
  }

  /** A key is recognised as outbound exactly when it is the printed form of its components, which it determines. */
  lemma RecogniseOutbound(key: string, dir: string, ext: string, c: string, e: string, s: string)
    requires Free(dir, '/') && Free(ext, '/')
    ensures IsName(c) && IsName(e) && IsNumeral(s) && key == OutboundKey(dir, c, e, s, ext)
            <==> Recognise(key, dir, ext) == Some(FoundOutbound(c, e, s))
  {
    if IsName(c) && IsName(e) && IsNumeral(s) && key == OutboundKey(dir, c, e, s, ext) {
      FourParts(dir, c, e, s + ext);
    }
    if Recognise(key, dir, ext) == Some(FoundOutbound(c, e, s)) {
      JoinSplit(key);
      var p := Split(key);
      assert p == [p[0], p[1], p[2], p[3]] && p[3] == s + ext;
    }
  }

  lemma RecogniseInbound(key: string, dir: string, ext: string, m: string, e: string, c: string)
    requires Free(dir, '/') && Free(ext, '/') && dir != "inbound"
    ensures |m| == 6 && AllDigits(m) && IsName(e) && IsName(c) && key == InboundKey(m, e, c, ext)
            <==> Recognise(key, dir, ext) == Some(FoundInbound(m, e, c))
  {
    if |m| == 6 && AllDigits(m) && IsName(e) && IsName(c) && key == InboundKey(m, e, c, ext) {
      FourParts("inbound", m, e, c + ext);
    }
    if Recognise(key, dir, ext) == Some(FoundInbound(m, e, c)) {
      JoinSplit(key);
      var p := Split(key);
      assert p == [p[0], p[1], p[2], p[3]] && p[3] == c + ext;
      assert Free(p[3], '/');
      assert forall i | 0 <= i < |c| :: c[i] == p[3][i];
    }
  }

  /** The transcript of every parseable recording is filed under the same metadata keys. */
  lemma TranscriptRoutesBack(key: string)
    requires ParseRecordingKey(key).Some?
    ensures var info := ParseRecordingKey(key).value;
            ParseTranscriptKey(info.transcriptKey) == Some(info)
  {
    match Recognise(key, "recordings", ".wav")
    case Some(FoundOutbound(c, e, s)) =>
      RecogniseOutbound(key, "recordings", ".wav", c, e, s);
      RecogniseOutbound(OutboundKey("transcripts", c, e, s, ".json"), "transcripts", ".json", c, e, s);
    case Some(FoundInbound(m, e, c)) =>
      RecogniseInbound(key, "recordings", ".wav", m, e, c);
      RecogniseInbound(InboundKey(m, e, c, ".json"), "transcripts", ".json", m, e, c);
  }

  // --- Printing the target key -----------------------------------------------------------

  datatype KeyError = BadCycle | BadEmployee | BadSequence

  function DeriveTargetOutboundKey(cycle: string, emp: string, seqNo: int): Result<string, KeyError> {
    if !IsName(cycle) then Err(BadCycle)
    else if !IsName(emp) then Err(BadEmployee)
    else if seqNo < 0 then Err(BadSequence)
    else Ok(OutboundKey("recordings", cycle, emp, Decimal(seqNo), ".wav"))
  }

  /** The printed key parses to exactly the cycle, employee and sequence number it was printed for. */
  lemma TargetKeyRoundTrip(cycle: string, emp: string, seqNo: int)
    requires DeriveTargetOutboundKey(cycle, emp, seqNo).Ok?
    ensures var info := ParseRecordingKey(DeriveTargetOutboundKey(cycle, emp, seqNo).value);
      && info.Some? && info.value.kind == Outbound && info.value.metaPk == cycle && info.value.employeeId == emp
      && AllDigits(info.value.seqOrContact) && Number(info.value.seqOrContact) == seqNo
  {
    DecimalNumber(seqNo);
    RecogniseOutbound(DeriveTargetOutboundKey(cycle, emp, seqNo).value, "recordings", ".wav", cycle, emp, Decimal(seqNo));
  }

  lemma HashSplits(a: string, s: string, b: string, t: string)
    requires a + ("#" + s) == b + ("#" + t) && Free(s, '#') && Free(t, '#')
    ensures a == b && s == t
  {
    var u := a + ("#" + s);
    assert u[|a|] == '#' && u[|b|] == '#';
    assert |a| == |b|;
    assert a == u[..|a|] == b && s == u[|a| + 1..] == t;
  }

  /**
   Distinct calls get distinct metadata keys: two outbound recordings share them only if cycle,
   employee and sequence agree, and an outbound one never shares them with an inbound one unless
   the cycle is named like an inbound contact.
   */
  lemma MetaKeysDistinct(k: string, l: string)
    requires ParseRecordingKey(k).Some? && ParseRecordingKey(l).Some?
    requires var a, b := ParseRecordingKey(k).value, ParseRecordingKey(l).value; a.metaPk == b.metaPk && a.metaSk == b.metaSk
    ensures var a, b := ParseRecordingKey(k).value, ParseRecordingKey(l).value;
      && a.employeeId == b.employeeId
      && (a.kind == b.kind ==> a.seqOrContact == b.seqOrContact)
      && (a.kind == b.kind == Outbound ==> k == l)
      && (a.kind != b.kind ==> "INBOUND#" <= a.metaPk && "0" in {a.seqOrContact, b.seqOrContact})
  {
    var a, b := ParseRecordingKey(k).value, ParseRecordingKey(l).value;
    SkShape(k);
    SkShape(l);
    var s, t := if a.kind == Outbound then a.seqOrContact else "0", if b.kind == Outbound then b.seqOrContact else "0";
    HashSplits(a.employeeId, s, b.employeeId, t);
    if a.kind == Inbound && b.kind == Inbound {
      assert a.seqOrContact == a.metaPk[8..] && b.seqOrContact == b.metaPk[8..];
    }
  }

  lemma SkShape(k: string)
    requires ParseRecordingKey(k).Some?
    ensures var a := ParseRecordingKey(k).value;
      && (a.kind == Outbound ==> IsNumeral(a.seqOrContact) && a.metaSk == a.employeeId + ("#" + a.seqOrContact)
                                 && k == OutboundKey("recordings", a.metaPk, a.employeeId, a.seqOrContact, ".wav"))
      && (a.kind == Inbound ==> a.metaSk == a.employeeId + ("#" + "0") && a.metaPk == "INBOUND#" + a.seqOrContact)
  {
    match Recognise(k, "recordings", ".wav")
    case Some(FoundOutbound(c, e, s)) => RecogniseOutbound(k, "recordings", ".wav", c, e, s);
    case Some(FoundInbound(m, e, c)) =>
  }

  // --- The telephony service's own keys -----------------------------------------------------

  datatype NativeMatch = NativeMatch(
    prefix: string, yyyy: string, mm: string, dd: string, contact: string, stamp: string, channel: Option<string>)

  function PrintTail(channel: Option<string>): string {
    "_UTC" + (if channel.Some? then "_" + channel.value else "") + ".wav"
  }

  function FileName(m: NativeMatch): string {
    m.contact + ("_" + (m.stamp + PrintTail(m.channel)))
  }

  /** One way of matching the pattern of a native key. */
  predicate Matches(key: string, m: NativeMatch) {
    && m.prefix != ""
    && |m.yyyy| == 4 && AllDigits(m.yyyy) && |m.mm| == 2 && AllDigits(m.mm) && |m.dd| == 2 && AllDigits(m.dd)
    && IsName(m.contact) && Free(m.contact, '_') && IsName(m.stamp) && (m.channel.Some? ==> IsName(m.channel.value))
    && key == m.prefix + ("/" + JoinPath(["CallRecordings", m.yyyy, m.mm, m.dd, FileName(m)]))
  }

  /** The last path component, up to its first underscore. */
  function ContactOf(key: string): string {
    var p := Split(key);
    var file := p[|p| - 1];
    file[..Find(file, '_')]
  }

  lemma {:induction false} JoinAppend(p: seq<string>, q: seq<string>)
    requires p != [] && q != []
    ensures JoinPath(p + q) == JoinPath(p) + ("/" + JoinPath(q))
  {
    assert (p + q)[1..] == p[1..] + q;
    if |p| == 1 {
      assert p[1..] + q == q;
    } else {
      JoinAppend(p[1..], q);
      assert p[0] + ("/" + (JoinPath(p[1..]) + ("/" + JoinPath(q)))) == (p[0] + ("/" + JoinPath(p[1..]))) + ("/" + JoinPath(q));
    }
  }

  lemma SplitAppend(a: string, b: string)
    ensures Split(a + ("/" + b)) == Split(a) + Split(b)
  {
    JoinSplit(a);
    JoinSplit(b);
    JoinAppend(Split(a), Split(b));
    SplitJoin(Split(a) + Split(b));
  }

  lemma MatchParts(key: string, m: NativeMatch)
    requires Matches(key, m)
    ensures Split(key) == Split(m.prefix) + ["CallRecordings", m.yyyy, m.mm, m.dd, FileName(m)]
  {
    var tail := ["CallRecordings", m.yyyy, m.mm, m.dd, FileName(m)];
    SplitJoin(tail);
    SplitAppend(m.prefix, JoinPath(tail));
  }

  /**
   However a native key is matched, the date and the contact are the same, and the contact is the
   last path component up to its first underscore.
   */
  lemma ContactUnique(key: string, m: NativeMatch, n: NativeMatch)
    requires Matches(key, m) && Matches(key, n)
    ensures m.contact == n.contact == ContactOf(key)
    ensures m.yyyy == n.yyyy && m.mm == n.mm && m.dd == n.dd && Split(m.prefix) == Split(n.prefix)
  {
    ContactIs(key, m);
    ContactIs(key, n);
    MatchParts(key, m);
    MatchParts(key, n);
    var p := Split(key);
    assert p[|p| - 4] == m.yyyy == n.yyyy && p[|p| - 3] == m.mm == n.mm && p[|p| - 2] == m.dd == n.dd;
    assert p[..|p| - 5] == Split(m.prefix) == Split(n.prefix);
  }

  lemma ContactIs(key: string, m: NativeMatch)
    requires Matches(key, m)
    ensures ContactOf(key) == m.contact
  {
    MatchParts(key, m);
    FirstUnderscore(m.contact, m.stamp + PrintTail(m.channel));
  }

  // --- The parser of native keys ---------------------------------------------------------------

  /** What may follow the timestamp. */
  predicate IsTail(t: string) {
    t == "_UTC.wav" || (|t| >= 10 && t[..5] == "_UTC_" && EndsWith(t, ".wav"))
  }

  /** The shortest timestamp, at least `i` long, that a tail follows. */
  function StampEnd(s: string, i: nat): (r: Option<nat>)
    requires i <= |s|
    ensures r.Some? ==> i <= r.value <= |s| && IsTail(s[r.value..])
    ensures r.None? ==> forall j | i <= j <= |s| :: !IsTail(s[j..])
    decreases |s| - i
  {
    if IsTail(s[i..]) then Some(i) else if i == |s| then None else StampEnd(s, i + 1)
  }

  function Channel(tail: string): Option<string>
    requires IsTail(tail)
  {
    if tail == "_UTC.wav" then None else Some(tail[5..|tail| - 4])
  }

  function ParseFile(file: string): Option<(string, string, Option<string>)> {
    var k := Find(file, '_');
    if k == 0 || k + 1 >= |file| then None
    else
      var rest := file[k + 1..];
      var end := StampEnd(rest, 1);
      if end.None? then None
      else
        var tail := rest[end.value..];
        Some((file[..k], rest[..end.value], Channel(tail)))
  }

  function ParseConnectNativeKey(key: string): Option<NativeMatch> {
    var p := Split(key);
    var n := |p|;
    if n < 6 || p[n - 5] != "CallRecordings" || JoinPath(p[..n - 5]) == "" then None
    else if !(|p[n - 4]| == 4 && AllDigits(p[n - 4]) && |p[n - 3]| == 2 && AllDigits(p[n - 3]) && |p[n - 2]| == 2 && AllDigits(p[n - 2])) then None
    else
      match ParseFile(p[n - 1])
      case None => None
      case Some((contact, stamp, channel)) =>
        Some(NativeMatch(JoinPath(p[..n - 5]), p[n - 4], p[n - 3], p[n - 2], contact, stamp, channel))
  }

  predicate IsFile(file: string, contact: string, stamp: string, channel: Option<string>) {
    && IsName(contact) && Free(contact, '_') && IsName(stamp) && (channel.Some? ==> IsName(channel.value))
    && file == FileName(NativeMatch("", "", "", "", contact, stamp, channel))
  }

  lemma TailShape(tail: string)
    requires IsTail(tail)
    ensures tail == PrintTail(Channel(tail)) && (Channel(tail).Some? ==> Channel(tail).value != "")
    ensures Free(tail, '/') && Channel(tail).Some? ==> Free(Channel(tail).value, '/')
  {
    if tail != "_UTC.wav" {
      var c := tail[5..|tail| - 4];
      assert tail[..5] == "_UTC_" && tail[|tail| - 4..] == ".wav";
      assert tail == tail[..5] + c + tail[|tail| - 4..];
      assert "_UTC_" == "_UTC" + "_";
    }
  }

  lemma FreeSlice(s: string, i: nat, j: nat, c: char)
    requires i <= j <= |s| && Free(s, c)
    ensures Free(s[i..j], c)
  {
  }

  lemma PieceNames(file: string, k: nat, end: nat)
    requires Free(file, '/') && 0 < k && 1 <= end && k + 1 + end <= |file|
    ensures IsName(file[..k]) && IsName(file[k + 1..][..end]) && Free(file[k + 1..][end..], '/')
  {
    FreeSlice(file, 0, k, '/');
    FreeSlice(file, k + 1, |file|, '/');
    FreeSlice(file[k + 1..], 0, end, '/');
    FreeSlice(file[k + 1..], end, |file| - k - 1, '/');
  }

  lemma FileSound(file: string)
    requires Free(file, '/') && ParseFile(file).Some?
    ensures var (contact, stamp, channel) := ParseFile(file).value; IsFile(file, contact, stamp, channel)
  {
    var k := Find(file, '_');
    var end := StampEnd(file[k + 1..], 1).value;
    var contact, stamp, tail := file[..k], file[k + 1..][..end], file[k + 1..][end..];
    PieceNames(file, k, end);
    TailShape(tail);
    CutAt(file, k, end);
    FileJoins(contact, stamp, tail);
    assert Free(contact, '_');
  }

  lemma CutAt(file: string, k: nat, end: nat)
    requires k < |file| && file[k] == '_' && k + 1 + end <= |file|
    ensures file == file[..k] + ("_" + (file[k + 1..][..end] + file[k + 1..][end..]))
  {
    assert file[k + 1..] == file[k + 1..][..end] + file[k + 1..][end..];
  }

  lemma FileJoins(contact: string, stamp: string, tail: string)
    requires IsTail(tail)
    ensures FileName(NativeMatch("", "", "", "", contact, stamp, Channel(tail))) == contact + ("_" + (stamp + tail))
  {
    TailShape(tail);
  }

  lemma FirstUnderscore(contact: string, rest: string)
    requires Free(contact, '_')
    ensures var file := contact + ("_" + rest);
      Find(file, '_') == |contact| && file[..|contact|] == contact && file[|contact| + 1..] == rest
  {
    var file := contact + ("_" + rest);
    assert file[|contact|] == '_';
    assert forall i | 0 <= i < |contact| :: file[i] == contact[i];
  }

  lemma TailPrinted(channel: Option<string>)
    requires channel.Some? ==> channel.value != ""
    ensures IsTail(PrintTail(channel))
  {
    var tail := PrintTail(channel);
    if channel.Some? { assert tail[..5] == "_UTC_" && tail[|tail| - 4..] == ".wav"; }
  }

  lemma FileComplete(file: string, contact: string, stamp: string, channel: Option<string>)
    requires IsFile(file, contact, stamp, channel)
    ensures ParseFile(file).Some? && ParseFile(file).value.0 == contact
  {
    var rest := stamp + PrintTail(channel);
    FirstUnderscore(contact, rest);
    TailPrinted(channel);
    assert rest[|stamp|..] == PrintTail(channel);
    assert StampEnd(rest, 1).Some?;
  }

  /** The parser succeeds exactly on the keys that match, and then returns a match. */
  lemma NativeParseIff(key: string)
    ensures ParseConnectNativeKey(key).Some? <==> exists m :: Matches(key, m)
    ensures ParseConnectNativeKey(key).Some? ==>
              Matches(key, ParseConnectNativeKey(key).value) && ParseConnectNativeKey(key).value.contact == ContactOf(key)
  {
    if ParseConnectNativeKey(key).Some? {
      NativeSound(key);
      ContactIs(key, ParseConnectNativeKey(key).value);
    }
    if m :| Matches(key, m) {
      MatchParts(key, m);
      JoinSplit(m.prefix);
      assert Split(key)[..|Split(key)| - 5] == Split(m.prefix);
      assert FileName(m) == FileName(NativeMatch("", "", "", "", m.contact, m.stamp, m.channel));
      FileComplete(FileName(m), m.contact, m.stamp, m.channel);
    }
  }

  lemma NativeSound(key: string)
    requires ParseConnectNativeKey(key).Some?
    ensures Matches(key, ParseConnectNativeKey(key).value)
  {
    var p, m := Split(key), ParseConnectNativeKey(key).value;
    var n := |p|;
    JoinSplit(key);
    FileSound(p[n - 1]);
    LastFive(p);
    JoinAppend(p[..n - 5], ["CallRecordings", m.yyyy, m.mm, m.dd, p[n - 1]]);
  }

  lemma LastFive(p: seq<string>)
    requires |p| >= 5
    ensures var n := |p|; p == p[..n - 5] + [p[n - 5], p[n - 4], p[n - 3], p[n - 2], p[n - 1]]
  {
  }
}
