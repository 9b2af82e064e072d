/** One installer that runs alone: what it accepts from the cache, what it installs, and every way in which it fails. */
module LoneInstall {
  import opened Sequences
  import opened HexDigests
  import opened ResticInstall

  // ----- Digest markers -----

  /** ASCII white space, as Python strips it. */
  predicate Blank(text: string) {
    forall i :: 0 <= i < |text| ==>
      text[i] as int in {9, 10, 11, 12, 13, 28, 29, 30, 31, 32}
  }

  /** 64 lower-case hexadecimal digits. */
  predicate Digest(text: string) {
    |text| == 64 && forall i :: 0 <= i < 64 ==> text[i] in "0123456789abcdef"
  }

  lemma {:induction false} StripIs(a: string, body: string, b: string)
    requires Blank(a) && Blank(b) && (body != "" ==> !IsSpace(body[0]) && !IsSpace(body[|body| - 1]))
    ensures Strip(a + body + b) == body
    decreases |a| + |b|
  {
    if a != "" {
      assert a + body + b == [a[0]] + (a[1..] + body + b);
      StripFirst(a[0], a[1..] + body + b);
      StripIs(a[1..], body, b);
    } else if b != "" && body == "" {
      assert a + body + b == [b[0]] + ("" + body + b[1..]);
      StripFirst(b[0], "" + body + b[1..]);
      StripIs("", body, b[1..]);
    } else if b != "" {
      var n := |b| - 1;
      assert a + body + b == (a + body + b[..n]) + [b[n]] && (a + body + b[..n])[0] == body[0];
      StripLast(a + body + b[..n], b[n]);
      StripIs(a, body, b[..n]);
    } else {
      assert a + body + b == body;
    }
  }

  lemma StripFirst(c: char, s: string)
    requires Blank([c])
    ensures Strip([c] + s) == Strip(s)
  {
    assert ([c] + s)[1..] == s && [c][0] == c;
  }

  lemma StripLast(s: string, c: char)
    requires Blank([c]) && s != "" && !IsSpace(s[0])
    ensures Strip(s + [c]) == Strip(s)
  {
    assert (s + [c])[..|s|] == s && [c][0] == c;
  }

  lemma StripCuts(text: string) returns (a: string, b: string)
    ensures text == a + Strip(text) + b && Blank(a) && Blank(b)
  {
    hide Strip;
    var body;
    a, body, b := Cut(text);
    StripIs(a, body, b);
  }

  /** White space, a text that begins and ends with something else, white space. */
  lemma {:induction false} Cut(text: string) returns (a: string, body: string, b: string)
    ensures text == a + body + b && Blank(a) && Blank(b)
    ensures body != "" ==> !IsSpace(body[0]) && !IsSpace(body[|body| - 1])
  {
    a, body, b := "", text, "";
    if text != "" && IsSpace(text[0]) {
      a, body, b := Cut(text[1..]);
      a := [text[0]] + a;
    } else if text != "" && IsSpace(text[|text| - 1]) {
      a, body, b := Cut(text[..|text| - 1]);
      b := b + [text[|text| - 1]];
    }
  }

  /** The marker holds the digest of the binary, and nothing else but white space around it. */
  ghost predicate Vouches(s: Setting, text: string, binary: string) {
    Digest(s.hash(binary)) && exists a, b :: Blank(a) && Blank(b) && text == a + s.hash(binary) + b
  }

  lemma VouchesExactly(s: Setting, text: string, binary: string)
    ensures DigestMatches(s, text, binary) <==> Vouches(s, text, binary)
  {
    hide Strip, Blank, HexDigest;
    var digest := s.hash(binary);
    HexDigestIs(digest);
    if DigestMatches(s, text, binary) {
      var a, b := StripCuts(text);
    }
    if Vouches(s, text, binary) {
      var a, b :| Blank(a) && Blank(b) && text == a + digest + b;
      TightDigest(digest);
      StripIs(a, digest, b);
    }
  }

  lemma TightDigest(text: string)
    requires HexDigest(text)
    ensures text != "" && !IsSpace(text[0]) && !IsSpace(text[|text| - 1])
  {}

  /** In every reachable state an executable has a marker that vouches for it. */
  lemma {:induction false} ExecutableIsVouchedFor(s: Setting, w: World, actions: seq<Action>)
    requires CollisionFree(s) && Initial(s, w)
    ensures var cache := Run(s, w, actions).cache;
            cache.executable.Some? ==> cache.marker.Some? && Vouches(s, cache.marker.value, cache.executable.value)
  {
    hide Run, Vouches, DigestMatches;
    ExecutableAlwaysHasItsDigest(s, w, actions);
    var cache := Run(s, w, actions).cache;
    if cache.executable.Some? {
      VouchesExactly(s, cache.marker.value, cache.executable.value);
    }
  }

  // ----- An installer alone -----

  lemma {:induction false} Stays(s: Setting, cache: Cache, i: Installer, input: Input, steps: nat)
    requires i.Done? || i.Failed?
    ensures Alone(s, cache, i, input, steps) == (cache, i)
  {
    if steps != 0 {
      Stays(s, cache, i, input, steps - 1);
    }
  }

  /** A step that ends the installer, with any number of steps to spare. */
  lemma LastStep(s: Setting, cache: Cache, i: Installer, input: Input, next: Cache, end: Installer, spare: nat)
    requires Advance(s, cache, i, input) == (next, end) && (end.Done? || end.Failed?)
    ensures Alone(s, cache, i, input, spare + 1) == (next, end)
  {
    hide Alone;
    Stays(s, next, end, input, spare);
    AloneNext(s, cache, i, input, next, end, (next, end), spare);
  }

  /** An executable that is there is used when it has a marker, that vouches for it, and the right version. */
  lemma CachedInstallExactly(s: Setting, cache: Cache, input: Input)
    requires cache.executable.Some? && !input.crash
    ensures Alone(s, cache, Start, input, 9)
         == (cache, if cache.marker.None? then Failed(MissingDigest)
                    else if !Vouches(s, cache.marker.value, cache.executable.value) then Failed(ChecksumMismatch)
                    else if !input.versionMatches then Failed(WrongVersion)
                    else Done(true))
  {
    hide Alone, DigestMatches, Vouches;
    if cache.marker.None? {
      LastStep(s, cache, LookForMarker, input, cache, Failed(MissingDigest), 7);
      AloneNext(s, cache, Start, input, cache, LookForMarker, (cache, Failed(MissingDigest)), 8);
    } else {
      var text := cache.marker.value;
      VouchesExactly(s, text, cache.executable.value);
      var result := Alone(s, cache, CompareDigest(text), input, 6);
      if Vouches(s, text, cache.executable.value) {
        var end := if input.versionMatches then Done(true) else Failed(WrongVersion);
        LastStep(s, cache, ProbeCached, input, cache, end, 4);
        AloneNext(s, cache, CompareDigest(text), input, cache, ProbeCached, (cache, end), 5);
      } else {
        LastStep(s, cache, CompareDigest(text), input, cache, Failed(ChecksumMismatch), 5);
      }
      AloneNext(s, cache, ReadMarker, input, cache, CompareDigest(text), result, 6);
      AloneNext(s, cache, LookForMarker, input, cache, ReadMarker, result, 7);
      AloneNext(s, cache, Start, input, cache, LookForMarker, result, 8);
    }
  }

  /** The first thing that is wrong with a download, if anything is. */
  function Defect(s: Setting, input: Input): Option<Error> {
    if |input.bytes| != s.size then Some(SizeMismatch)
    else if s.hash(input.bytes) != s.sha256 then Some(ArchiveMismatch)
    else if s.unpack(input.bytes).None? then Some(BadArchive)
    else if s.unpack(input.bytes) == Some("") || |s.unpack(input.bytes).value| > 134217728 then Some(BadBinarySize)
    else if !input.versionMatches then Some(WrongVersion)
    else None
  }

  /** Without an executable: a download with a defect changes nothing, any other one is installed with its digest. */
  lemma FreshInstallExactly(s: Setting, cache: Cache, input: Input)
    requires cache.executable.None? && !input.crash
    ensures Alone(s, cache, Start, input, 9)
         == if Defect(s, input).Some? then (cache, Failed(Defect(s, input).value))
            else
              var binary := s.unpack(input.bytes).value;
              (Cache(Some(binary), Some(s.hash(binary) + "\n")), Done(false))
  {
    hide Alone;
    if |input.bytes| == s.size {
      DownloadedInstall(s, cache, input);
      AloneNext(s, cache, Download, input, cache, HashArchive(input.bytes),
                Alone(s, cache, HashArchive(input.bytes), input, 6), 6);
    } else {
      LastStep(s, cache, Download, input, cache, Failed(SizeMismatch), 6);
    }
    var result := Alone(s, cache, Download, input, 7);
    AloneNext(s, cache, LookAgain, input, cache, Download, result, 7);
    AloneNext(s, cache, Start, input, cache, LookAgain, result, 8);
  }

  lemma DownloadedInstall(s: Setting, cache: Cache, input: Input)
    requires |input.bytes| == s.size && !input.crash
    ensures Alone(s, cache, HashArchive(input.bytes), input, 6)
         == if Defect(s, input).Some? then (cache, Failed(Defect(s, input).value))
            else
              var binary := s.unpack(input.bytes).value;
              (Cache(Some(binary), Some(s.hash(binary) + "\n")), Done(false))
  {
    hide Alone;
    var archive := input.bytes;
    if s.hash(archive) != s.sha256 {
      LastStep(s, cache, HashArchive(archive), input, cache, Failed(ArchiveMismatch), 5);
    } else {
      var result := Alone(s, cache, Extract(archive), input, 5);
      AloneNext(s, cache, HashArchive(archive), input, cache, Extract(archive), result, 5);
      if s.unpack(archive).None? {
        LastStep(s, cache, Extract(archive), input, cache, Failed(BadArchive), 4);
      } else {
        ExtractedInstall(s, cache, input, s.unpack(archive).value);
      }
    }
  }

  lemma ExtractedInstall(s: Setting, cache: Cache, input: Input, binary: string)
    requires s.unpack(input.bytes) == Some(binary) && !input.crash
    ensures Alone(s, cache, Extract(input.bytes), input, 5)
         == if binary == "" || |binary| > 134217728 then (cache, Failed(BadBinarySize))
            else if !input.versionMatches then (cache, Failed(WrongVersion))
            else (Cache(Some(binary), Some(s.hash(binary) + "\n")), Done(false))
  {
    hide Alone;
    if binary == "" || |binary| > 134217728 {
      LastStep(s, cache, Extract(input.bytes), input, cache, Failed(BadBinarySize), 4);
    } else {
      var result := Alone(s, cache, ProbeExtracted(binary), input, 4);
      AloneNext(s, cache, Extract(input.bytes), input, cache, ProbeExtracted(binary), result, 4);
      if !input.versionMatches {
        LastStep(s, cache, ProbeExtracted(binary), input, cache, Failed(WrongVersion), 3);
      } else {
        BinaryIsPlaced(s, cache, input, binary);
      }
    }
  }

  lemma BinaryIsPlaced(s: Setting, cache: Cache, input: Input, binary: string)
    requires input.versionMatches && !input.crash
    ensures Alone(s, cache, ProbeExtracted(binary), input, 4)
         == (Cache(Some(binary), Some(s.hash(binary) + "\n")), Done(false))
  {
    var text := s.hash(binary) + "\n";
    var marked := cache.(marker := Some(text));
    var last := Cache(Some(binary), Some(text));
    hide Alone;
    LastStep(s, marked, ReplaceExecutable(binary), input, last, Done(false), 0);
    AloneNext(s, cache, ReplaceMarker(binary, text), input, marked, ReplaceExecutable(binary), (last, Done(false)), 1);
    AloneNext(s, cache, WriteMarker(binary), input, cache, ReplaceMarker(binary, text), (last, Done(false)), 2);
    AloneNext(s, cache, ProbeExtracted(binary), input, cache, WriteMarker(binary), (last, Done(false)), 3);
  }
}
