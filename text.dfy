/** `with_utf16_str` and `Color` (src/text.rs:186-307): the encoder that
    hands a string to the firmware as UTF-16 through a fixed staging buffer
    of 256 units, and the packing of the text attribute of section 12.4 of
    the UEFI Specification. */
module Text {
  import opened Bytes
  import opened Status
  import Arith

  /** The staging buffer's length in UTF-16 units. */
  const BUFFER_SIZE: nat := 256

  /** What a successful firmware call reports: `Warning::Success` or some
      other warning. */
  datatype Warning = Success | Warned(code: nat)

  /** `char::len_utf16`: characters outside the Basic Multilingual Plane take
      a surrogate pair. */
  function Utf16Len(c: char): (n: nat)
    ensures n == 1 || n == 2
    ensures n == 2 <==> c as int >= 0x1_0000
  {
    if c as int < 0x1_0000 then 1 else 2
  }

  /** `char::encode_utf16`: the unit itself, or a high and a low surrogate. */
  function EncodeChar(c: char): (u: seq<u16>)
    ensures |u| == Utf16Len(c)
  {
    if c as int < 0x1_0000 then [c as int]
    else
      var v := c as int - 0x1_0000;
      [0xD800 + v / 0x400, 0xDC00 + v % 0x400]
  }

  /** The UTF-16 encoding of a string: its characters' encodings in order. */
  function Utf16(s: string): seq<u16>
  {
    if s == [] then [] else EncodeChar(s[0]) + Utf16(s[1..])
  }

  /** A strict UTF-16 decoder: `None` for an unpaired surrogate. */
  function DecodeUtf16(u: seq<u16>): Option<string>
  {
    if u == [] then Some([])
    else if 0xD800 <= u[0] < 0xDC00 then
      if |u| >= 2 && 0xDC00 <= u[1] < 0xE000 then
        var c: int := 0x1_0000 + (u[0] as int - 0xD800) * 0x400 + (u[1] as int - 0xDC00);
        match DecodeUtf16(u[2..])
        case None => None
        case Some(rest) => Some([c as char] + rest)
      else None
    else if 0xDC00 <= u[0] < 0xE000 then None
    else
      match DecodeUtf16(u[1..])
      case None => None
      case Some(rest) => Some([u[0] as char] + rest)
  }

  /** Decoding the encoding of one character gives it back. */
  lemma DecodeEncodeChar(c: char, rest: seq<u16>)
    ensures DecodeUtf16(EncodeChar(c) + rest) ==
      match DecodeUtf16(rest) case None => None case Some(r) => Some([c] + r)
  {
    var u := EncodeChar(c) + rest;
    if c as int >= 0x1_0000 {
      assert u[2..] == rest;
    } else {
      assert u[1..] == rest;
    }
  }

  /** Decoding inverts the encoding. */
  lemma {:induction false} DecodeUtf16Encoding(s: string)
    ensures DecodeUtf16(Utf16(s)) == Some(s)
  {
    if s != [] {
      DecodeUtf16Encoding(s[1..]);
      DecodeEncodeChar(s[0], Utf16(s[1..]));
      assert [s[0]] + s[1..] == s;
    }
  }

  /** A high and a low surrogate are the encoding of the character they
      decode to. */
  lemma SurrogatePair(hi: u16, lo: u16)
    requires 0xD800 <= hi < 0xDC00 && 0xDC00 <= lo < 0xE000
    ensures var c := 0x1_0000 + (hi as int - 0xD800) * 0x400 + (lo as int - 0xDC00);
      0x1_0000 <= c < 0x11_0000 && EncodeChar(c as char) == [hi, lo]
  {
    var v := (hi as int - 0xD800) * 0x400 + (lo as int - 0xDC00);
    Arith.DivUnique(v, 0x400, hi as int - 0xD800, lo as int - 0xDC00);
  }

  /** Whatever decodes was the encoding of what it decodes to. */
  lemma {:induction false} EncodingOfDecoded(u: seq<u16>)
    ensures DecodeUtf16(u).Some? ==> Utf16(DecodeUtf16(u).value) == u
    decreases |u|
  {
    if u != [] && DecodeUtf16(u).Some? {
      var s := DecodeUtf16(u).value;
      if 0xD800 <= u[0] < 0xDC00 {
        var c: int := 0x1_0000 + (u[0] as int - 0xD800) * 0x400 + (u[1] as int - 0xDC00);
        var rest := DecodeUtf16(u[2..]).value;
        EncodingOfDecoded(u[2..]);
        SurrogatePair(u[0], u[1]);
        assert s == [c as char] + rest;
        assert Utf16(s) == EncodeChar(c as char) + Utf16(rest);
        assert u == [u[0], u[1]] + u[2..];
      } else {
        var rest := DecodeUtf16(u[1..]).value;
        EncodingOfDecoded(u[1..]);
        assert s == [u[0] as char] + rest;
        assert Utf16(s) == EncodeChar(u[0] as char) + Utf16(rest);
        assert u == [u[0]] + u[1..];
      }
    }
  }

  /** Encoding distributes over concatenation. */
  lemma {:induction false} Utf16Append(s: string, t: string)
    ensures Utf16(s + t) == Utf16(s) + Utf16(t)
  {
    if s != [] {
      assert (s + t)[0] == s[0] && (s + t)[1..] == s[1..] + t;
      calc {
        Utf16(s + t);
        EncodeChar(s[0]) + Utf16(s[1..] + t);
        { Utf16Append(s[1..], t); }
        EncodeChar(s[0]) + (Utf16(s[1..]) + Utf16(t));
        Utf16(s) + Utf16(t);
      }
    } else {
      assert s + t == t;
    }
  }

  /** Encoding a string one more character long appends that character's units. */
  lemma Utf16Snoc(s: string, i: nat)
    requires i < |s|
    ensures Utf16(s[..i + 1]) == Utf16(s[..i]) + EncodeChar(s[i])
  {
    Utf16Append(s[..i], [s[i]]);
    assert s[..i] + [s[i]] == s[..i + 1];
  }

  /** The firmware function passed to `with_utf16_str`, as its answer to a
      call: it is given the strings of the earlier calls and the units of this
      one, those before the terminator, and answers with a warning or an
      error. Status decoding is not part of this model, so the answer comes
      already split into the two. */
  type Callback = (seq<seq<u16>>, seq<u16>) -> Result<Warning>

  /** The concatenation of the strings handed over. */
  function Concat(pieces: seq<seq<u16>>): seq<u16>
  {
    if pieces == [] then [] else pieces[0] + Concat(pieces[1..])
  }

  /** The calls made for `pieces`, in order, after the calls `calls`, and how
      the encoder ends: the first error ends it; otherwise it panics when
      `panics` says so and else returns its warning. When `keep` holds, the
      first warning other than Success a call reports becomes the warning
      returned; otherwise the warning stays as it is. */
  function Deliver(cb: Callback, pieces: seq<seq<u16>>, panics: bool, keep: bool,
                   calls: seq<seq<u16>>, warning: Warning): (seq<seq<u16>>, Outcome<Warning>)
    decreases |pieces|
  {
    if pieces == [] then (calls, if panics then Panicked else Returned(Ok(warning)))
    else
      var answer := cb(calls, pieces[0]);
      if answer.Err? then (calls + [pieces[0]], Returned(Err(answer.error)))
      else
        Deliver(cb, pieces[1..], panics, keep, calls + [pieces[0]],
                if keep && warning == Warning.Success then answer.value else warning)
  }

  /** Delivering one more piece first: its call, then the rest. */
  lemma DeliverCons(cb: Callback, p: seq<u16>, rest: seq<seq<u16>>, panics: bool, keep: bool,
                    calls: seq<seq<u16>>, warning: Warning)
    ensures Deliver(cb, [p] + rest, panics, keep, calls, warning) ==
      var answer := cb(calls, p);
      if answer.Err? then (calls + [p], Returned(Err(answer.error)))
      else Deliver(cb, rest, panics, keep, calls + [p],
                   if keep && warning == Warning.Success then answer.value else warning)
  {
    assert ([p] + rest)[0] == p && ([p] + rest)[1..] == rest;
  }

  /** The calls made are the earlier calls and then the pieces in order, at
      least the first; they stop early only at an error, and a run that ends
      otherwise hands over every piece and panics exactly when `panics` says. */
  lemma {:induction false} DeliverCalls(cb: Callback, pieces: seq<seq<u16>>, panics: bool, keep: bool,
                                        calls: seq<seq<u16>>, warning: Warning)
    ensures var (made, out) := Deliver(cb, pieces, panics, keep, calls, warning);
      |calls| <= |made| <= |calls| + |pieces| && made == calls + pieces[..|made| - |calls|] &&
      (pieces != [] ==> |made| > |calls|) &&
      (!(out.Returned? && out.result.Err?) ==> made == calls + pieces && (out.Panicked? <==> panics))
    decreases |pieces|
  {
    if pieces != [] {
      var answer := cb(calls, pieces[0]);
      var calls' := calls + [pieces[0]];
      if answer.Ok? {
        DeliverCalls(cb, pieces[1..], panics, keep, calls',
                     if keep && warning == Warning.Success then answer.value else warning);
        var made := Deliver(cb, pieces, panics, keep, calls, warning).0;
        var n := |made| - |calls'|;
        assert pieces[..n + 1] == [pieces[0]] + pieces[1..][..n];
        assert [pieces[0]] + pieces[1..] == pieces;
      } else {
        assert pieces[..1] == [pieces[0]];
      }
    }
  }

  /** A run ends with an error exactly when its last call answered one, and
      then with that call's error; every earlier call answered without one. */
  lemma {:induction false} DeliverError(cb: Callback, pieces: seq<seq<u16>>, panics: bool, keep: bool,
                                        calls: seq<seq<u16>>, warning: Warning)
    ensures var (made, out) := Deliver(cb, pieces, panics, keep, calls, warning);
      |made| >= |calls| &&
      (out.Returned? && out.result.Err? <==> |made| > |calls| && cb(made[..|made| - 1], made[|made| - 1]).Err?) &&
      (out.Returned? && out.result.Err? ==> out.result.error == cb(made[..|made| - 1], made[|made| - 1]).error) &&
      (forall k :: |calls| <= k < |made| - 1 ==> cb(made[..k], made[k]).Ok?)
    decreases |pieces|
  {
    if pieces != [] {
      var answer := cb(calls, pieces[0]);
      var calls' := calls + [pieces[0]];
      DeliverCalls(cb, pieces, panics, keep, calls, warning);
      if answer.Ok? {
        var warning' := if keep && warning == Warning.Success then answer.value else warning;
        DeliverError(cb, pieces[1..], panics, keep, calls', warning');
        var made := Deliver(cb, pieces, panics, keep, calls, warning).0;
        assert made == Deliver(cb, pieces[1..], panics, keep, calls', warning').0;
        DeliverCalls(cb, pieces[1..], panics, keep, calls', warning');
        assert made[..|calls|] == calls && made[|calls|] == pieces[0];
      } else {
        assert (calls + [pieces[0]])[..|calls|] == calls;
      }
    }
  }

  /** When the warning is not kept, a run that returns returns the warning it
      started with. */
  lemma {:induction false} DeliverKeepsWarning(cb: Callback, pieces: seq<seq<u16>>, panics: bool,
                                              calls: seq<seq<u16>>, warning: Warning)
    ensures var out := Deliver(cb, pieces, panics, false, calls, warning).1;
      out.Returned? && out.result.Ok? ==> out.result.value == warning
    decreases |pieces|
  {
    if pieces != [] && cb(calls, pieces[0]).Ok? {
      DeliverKeepsWarning(cb, pieces[1..], panics, calls + [pieces[0]], warning);
    }
  }

  /** Where the staging buffer is flushed, in the encoder as it should be:
      the strings handed over for the characters `s[i..]` when the buffer
      holds `current`. A character that would leave no room for the
      terminator flushes the buffer first, which then starts again empty. */
  function Pieces(s: string, i: nat, current: seq<u16>): seq<seq<u16>>
    requires i <= |s|
    decreases |s| - i
  {
    if i == |s| then [current]
    else
      var u := EncodeChar(s[i]);
      if |current| + |u| + 1 >= BUFFER_SIZE then [current] + Pieces(s, i + 1, u)
      else Pieces(s, i + 1, current + u)
  }

  /** The pieces are the encoding, cut into parts. */
  lemma {:induction false} PiecesConcat(s: string, i: nat, current: seq<u16>)
    requires i <= |s|
    ensures Concat(Pieces(s, i, current)) == current + Utf16(s[i..])
    decreases |s| - i
  {
    if i == |s| {
      assert Concat([current]) == current + Concat([]);
    } else {
      var u := EncodeChar(s[i]);
      assert s[i..] == [s[i]] + s[i + 1..];
      assert Utf16(s[i..]) == u + Utf16(s[i + 1..]);
      PiecesConcat(s, i + 1, if |current| + |u| + 1 >= BUFFER_SIZE then u else current + u);
      if |current| + |u| + 1 >= BUFFER_SIZE {
        assert ([current] + Pieces(s, i + 1, u))[1..] == Pieces(s, i + 1, u);
      }
    }
  }

  /** Pieces that each fit the buffer with the terminator and each decode
      on their own, so that no surrogate pair is cut in two. */
  ghost predicate WholePieces(pieces: seq<seq<u16>>)
  {
    forall k :: 0 <= k < |pieces| ==> |pieces[k]| < BUFFER_SIZE - 1 && DecodeUtf16(pieces[k]).Some?
  }

  /** Every piece fits the buffer together with its terminator, and every
      piece is the encoding of whole characters. */
  lemma {:induction false} PiecesFit(s: string, i: nat, t: string)
    requires i <= |s| && |Utf16(t)| < BUFFER_SIZE - 1
    ensures WholePieces(Pieces(s, i, Utf16(t)))
    decreases |s| - i
  {
    DecodeUtf16Encoding(t);
    if i < |s| {
      var u := EncodeChar(s[i]);
      assert Utf16([s[i]]) == u + Utf16([]);
      assert Utf16([s[i]]) == u;
      Utf16Append(t, [s[i]]);
      if |Utf16(t)| + |u| + 1 >= BUFFER_SIZE {
        PiecesFit(s, i + 1, [s[i]]);
        var rest := Pieces(s, i + 1, u);
        var pieces := Pieces(s, i, Utf16(t));
        assert pieces == [Utf16(t)] + rest;
        forall k | 0 <= k < |pieces|
          ensures |pieces[k]| < BUFFER_SIZE - 1 && DecodeUtf16(pieces[k]).Some?
        {
          if k > 0 {
            assert pieces[k] == rest[k - 1];
          }
        }
      } else {
        PiecesFit(s, i + 1, t + [s[i]]);
      }
    }
  }

  /** Characters that leave room for the terminator go into the buffer
      without a flush. */
  lemma {:induction false} PiecesAdvance(s: string, i: nat, j: nat, current: seq<u16>)
    requires i <= j <= |s| && |current + Utf16(s[i..j])| < BUFFER_SIZE - 1
    ensures Pieces(s, i, current) == Pieces(s, j, current + Utf16(s[i..j]))
    decreases j - i
  {
    if i < j {
      assert s[i..j] == [s[i]] + s[i + 1..j];
      assert current + Utf16(s[i..j]) == (current + EncodeChar(s[i])) + Utf16(s[i + 1..j]);
      PiecesAdvance(s, i + 1, j, current + EncodeChar(s[i]));
    } else {
      assert current + Utf16(s[i..j]) == current;
    }
  }

  /** A character that would leave no room for the terminator flushes the
      buffer: `current` is handed over as it stands, and the next piece
      starts with that character's units. */
  lemma PiecesFlush(s: string, i: nat, current: seq<u16>)
    requires i < |s| && |current| + Utf16Len(s[i]) + 1 >= BUFFER_SIZE
    ensures Pieces(s, i, current) == [current] + Pieces(s, i + 1, EncodeChar(s[i]))
  {
  }

  /** A string of at most 254 units goes over in one piece. */
  lemma PiecesShort(s: string)
    requires |Utf16(s)| < BUFFER_SIZE - 1
    ensures Pieces(s, 0, []) == [Utf16(s)]
  {
    assert s[0..|s|] == s && [] + Utf16(s) == Utf16(s);
    PiecesAdvance(s, 0, |s|, []);
  }

  /** How the encoder as written hands a string over: the pieces in order,
      and whether it panics after them. */
  datatype Plan = Plan(pieces: seq<seq<u16>>, panics: bool)

  /** Where the encoder as written flushes, for the characters `s[i..]` when
      the buffer holds `current`. The flush resets only its own copy of the
      index, so the buffer keeps filling: each flush hands over everything
      encoded so far; writing the terminator at index 256 panics, and so does
      encoding a character into the slice left after it when it is too short. */
  function AsWrittenPlan(s: string, i: nat, current: seq<u16>): Plan
    requires i <= |s|
    decreases |s| - i
  {
    if i == |s| then
      if |current| < BUFFER_SIZE then Plan([current], false) else Plan([], true)
    else
      var u := EncodeChar(s[i]);
      if |current| + |u| + 1 >= BUFFER_SIZE then
        if |current| >= BUFFER_SIZE then Plan([], true)
        else if |current| + |u| > BUFFER_SIZE then Plan([current], true)
        else
          var rest := AsWrittenPlan(s, i + 1, current + u);
          Plan([current] + rest.pieces, rest.panics)
      else AsWrittenPlan(s, i + 1, current + u)
  }

  /** As written too, characters that leave room for the terminator go into
      the buffer without a flush. */
  lemma {:induction false} AsWrittenAdvance(s: string, i: nat, j: nat, current: seq<u16>)
    requires i <= j <= |s| && |current + Utf16(s[i..j])| < BUFFER_SIZE - 1
    ensures AsWrittenPlan(s, i, current) == AsWrittenPlan(s, j, current + Utf16(s[i..j]))
    decreases j - i
  {
    if i < j {
      assert s[i..j] == [s[i]] + s[i + 1..j];
      assert current + Utf16(s[i..j]) == (current + EncodeChar(s[i])) + Utf16(s[i + 1..j]);
      AsWrittenAdvance(s, i + 1, j, current + EncodeChar(s[i]));
    } else {
      assert current + Utf16(s[i..j]) == current;
    }
  }

  /** As written, a prefix of at most 254 units fills the buffer without a
      flush. */
  lemma AsWrittenPrefix(s: string, j: nat)
    requires j <= |s| && |Utf16(s[..j])| < BUFFER_SIZE - 1
    ensures AsWrittenPlan(s, 0, []) == AsWrittenPlan(s, j, Utf16(s[..j]))
  {
    assert s[0..j] == s[..j] && [] + Utf16(s[..j]) == Utf16(s[..j]);
    AsWrittenAdvance(s, 0, j, []);
  }

  /** As written, a string of at most 254 units also goes over in one piece. */
  lemma AsWrittenShort(s: string)
    requires |Utf16(s)| < BUFFER_SIZE - 1
    ensures AsWrittenPlan(s, 0, []) == Plan([Utf16(s)], false)
  {
    assert s[..|s|] == s;
    AsWrittenPrefix(s, |s|);
  }

  /** As written, every piece handed over starts the encoding from its first
      unit: nothing is ever dropped from the buffer, so text is handed over
      again with every later flush. */
  lemma {:induction false} AsWrittenPrefixes(s: string, i: nat)
    requires i <= |s|
    ensures forall p :: p in AsWrittenPlan(s, i, Utf16(s[..i])).pieces ==> p <= Utf16(s)
    decreases |s| - i
  {
    Utf16Append(s[..i], s[i..]);
    assert s[..i] + s[i..] == s;
    if i < |s| {
      Utf16Snoc(s, i);
      AsWrittenPrefixes(s, i + 1);
    }
  }

  /** The 255-character string the defect shows on. */
  function Letters(n: nat): (s: string)
    ensures |s| == n && forall k :: 0 <= k < n ==> s[k] == 'a'
  {
    seq(n, _ => 'a')
  }

  /** Each letter is one unit. */
  lemma {:induction false} LettersUtf16(n: nat)
    ensures Utf16(Letters(n)) == seq(n, _ => 'a' as int)
  {
    if n > 0 {
      LettersUtf16(n - 1);
      assert Letters(n)[1..] == Letters(n - 1);
    }
  }

  /** As written, 255 letters are handed over as the first 254 letters and
      then all 255 again: 509 units for a 255-unit string, with the first 254
      repeated. */
  lemma AsWrittenRepeats()
    ensures var s := Letters(255);
      AsWrittenPlan(s, 0, []) == Plan([Utf16(s[..254]), Utf16(s)], false) &&
      |Concat(AsWrittenPlan(s, 0, []).pieces)| == 509
  {
    var s := Letters(255);
    var a := 'a' as int;
    assert s[..254] == Letters(254);
    LettersUtf16(254);
    LettersUtf16(255);
    AsWrittenPrefix(s, 254);
    Utf16Snoc(s, 254);
    assert s[..255] == s;
    assert EncodeChar(s[254]) == [a];
    var p := AsWrittenPlan(s, 255, Utf16(s));
    assert p == Plan([Utf16(s)], false);
    assert Concat([Utf16(s)]) == Utf16(s) + Concat([]);
    assert Concat([Utf16(s[..254]), Utf16(s)]) == Utf16(s[..254]) + Concat([Utf16(s)]);
  }

  /** As written, 256 letters are handed over as the first 254 letters and
      then the first 255, and then the encoder panics: the 256th letter
      fills the buffer and the terminator is written at index 256. */
  lemma AsWrittenPanics()
    ensures AsWrittenPlan(Letters(256), 0, []) == Plan([Utf16(Letters(254)), Utf16(Letters(255))], true)
  {
    var s := Letters(256);
    var a := 'a' as int;
    assert s[..254] == Letters(254);
    assert s[..255] == Letters(255);
    LettersUtf16(254);
    AsWrittenPrefix(s, 254);
    Utf16Snoc(s, 254);
    assert EncodeChar(s[254]) == [a] && EncodeChar(s[255]) == [a];
    var full := Utf16(s[..255]) + [a];
    assert AsWrittenPlan(s, 256, full) == Plan([], true);
    assert AsWrittenPlan(s, 255, Utf16(s[..255])) == Plan([Utf16(s[..255])], true);
  }

  /** `c.encode_utf16(&mut buffer[index..])`: the character's units are
      stored from `index` on, and the units before `index` are kept. */
  method EncodeInto(buffer: array<u16>, index: nat, c: char) returns (index': nat)
    requires index + Utf16Len(c) <= buffer.Length
    modifies buffer
    ensures index' == index + Utf16Len(c)
    ensures buffer[..index'] == old(buffer[..index]) + EncodeChar(c)
  {
    var units := EncodeChar(c);
    buffer[index] := units[0];
    if |units| == 2 {
      buffer[index + 1] := units[1];
    }
    index' := index + |units|;
    assert buffer[..index'] == old(buffer[..index]) + units by {
      assert forall k :: 0 <= k < index ==> buffer[k] == old(buffer[k]);
    }
  }

  /** The flush closure as written (src/text.rs:206-218). Its index and
      warning are bound to copies of the caller's values, so resetting the
      one and storing the other has no effect outside: it writes the
      terminator at `currentIndex` (out of bounds at 256) and calls the
      firmware function, passing on an error. */
  method FlushAsWritten(buffer: array<u16>, currentIndex: nat, warning: Warning, cb: Callback,
                        calls: seq<seq<u16>>) returns (r: Outcome<()>, calls': seq<seq<u16>>)
    requires buffer.Length == BUFFER_SIZE
    modifies buffer
    ensures currentIndex >= BUFFER_SIZE ==> r == Panicked && calls' == calls && unchanged(buffer)
    ensures currentIndex < BUFFER_SIZE ==>
      buffer[..] == old(buffer[..])[currentIndex := 0] &&
      calls' == calls + [old(buffer[..currentIndex])] &&
      r == match cb(calls, old(buffer[..currentIndex]))
           case Ok(_) => Returned(Ok(()))
           case Err(e) => Returned(Err(e))
  {
    if currentIndex >= BUFFER_SIZE {
      return Panicked, calls;
    }
    var index, copy := currentIndex, warning;
    buffer[index] := 0;
    index := 0;
    var handed := buffer[..currentIndex];
    var answer := cb(calls, handed);
    calls' := calls + [handed];
    if answer.Err? {
      return Returned(Err(answer.error)), calls';
    }
    if copy == Warning.Success {
      copy := answer.value;
    }
    r := Returned(Ok(()));
  }

  /** `with_utf16_str` as written (src/text.rs:193-235): the calls made and
      how it ends are those of `AsWrittenPlan`, delivered without keeping
      any warning. */
  method WithUtf16StrAsWritten(s: string, cb: Callback) returns (calls: seq<seq<u16>>, out: Outcome<Warning>)
    ensures (calls, out) ==
      Deliver(cb, AsWrittenPlan(s, 0, []).pieces, AsWrittenPlan(s, 0, []).panics, false, [], Warning.Success)
  {
    ghost var plan := AsWrittenPlan(s, 0, []);
    var buffer := new u16[BUFFER_SIZE](_ => 0);
    var currentIndex: nat := 0;
    var warning := Warning.Success;
    calls := [];
    var i := 0;
    while i < |s|
      invariant i <= |s| && currentIndex <= BUFFER_SIZE && buffer.Length == BUFFER_SIZE
      invariant warning == Warning.Success
      invariant Deliver(cb, plan.pieces, plan.panics, false, [], Warning.Success) ==
        Deliver(cb, AsWrittenPlan(s, i, buffer[..currentIndex]).pieces,
                AsWrittenPlan(s, i, buffer[..currentIndex]).panics, false, calls, warning)
    {
      var c := s[i];
      ghost var current := buffer[..currentIndex];
      if currentIndex + Utf16Len(c) + 1 >= BUFFER_SIZE {
        var flushed;
        flushed, calls := FlushAsWritten(buffer, currentIndex, warning, cb, calls);
        if flushed.Panicked? {
          return calls, Panicked;
        } else if flushed.result.Err? {
          return calls, Returned(Err(flushed.result.error));
        }
        assert buffer[..currentIndex] == current;
      }
      // `encode_utf16` into `buffer[current_index..]`
      if currentIndex + Utf16Len(c) > BUFFER_SIZE {
        return calls, Panicked;
      }
      currentIndex := EncodeInto(buffer, currentIndex, c);
      i := i + 1;
    }
    var flushed;
    flushed, calls := FlushAsWritten(buffer, currentIndex, warning, cb, calls);
    if flushed.Panicked? {
      return calls, Panicked;
    } else if flushed.result.Err? {
      return calls, Returned(Err(flushed.result.error));
    }
    return calls, Returned(Ok(warning));
  }

  /** The flush closure as it is meant to work: it writes the terminator,
      calls the firmware function, passes on an error, stores the first
      warning other than Success, and starts the buffer again empty. */
  method Flush(buffer: array<u16>, currentIndex: nat, warning: Warning, cb: Callback,
               calls: seq<seq<u16>>) returns (r: Result<()>, index: nat, warning': Warning, calls': seq<seq<u16>>)
    requires buffer.Length == BUFFER_SIZE && currentIndex < BUFFER_SIZE
    modifies buffer
    ensures buffer[..] == old(buffer[..])[currentIndex := 0] && index == 0
    ensures calls' == calls + [old(buffer[..currentIndex])]
    ensures r.Err? <==> cb(calls, old(buffer[..currentIndex])).Err?
    ensures r.Err? ==> r.error == cb(calls, old(buffer[..currentIndex])).error
    ensures r.Ok? ==>
      warning' == if warning == Warning.Success then cb(calls, old(buffer[..currentIndex])).value else warning
  {
    buffer[currentIndex] := 0;
    index := 0;
    var handed := buffer[..currentIndex];
    var answer := cb(calls, handed);
    calls' := calls + [handed];
    if answer.Err? {
      return Err(answer.error), index, warning, calls';
    }
    warning' := if warning == Warning.Success then answer.value else warning;
    r := Ok(());
  }

  /** `with_utf16_str` as it is meant to work: the calls made and how it ends
      are those of `Pieces`, delivered keeping the first warning. */
  method WithUtf16Str(s: string, cb: Callback) returns (calls: seq<seq<u16>>, out: Outcome<Warning>)
    ensures (calls, out) == Deliver(cb, Pieces(s, 0, []), false, true, [], Warning.Success)
  {
    var buffer := new u16[BUFFER_SIZE](_ => 0);
    var currentIndex: nat := 0;
    var warning := Warning.Success;
    calls := [];
    var i := 0;
    while i < |s|
      invariant i <= |s| && currentIndex < BUFFER_SIZE - 1 && buffer.Length == BUFFER_SIZE
      invariant Deliver(cb, Pieces(s, 0, []), false, true, [], Warning.Success) ==
        Deliver(cb, Pieces(s, i, buffer[..currentIndex]), false, true, calls, warning)
    {
      var c := s[i];
      var units := EncodeChar(c);
      if currentIndex + Utf16Len(c) + 1 >= BUFFER_SIZE {
        ghost var before, callsBefore, warningBefore := buffer[..currentIndex], calls, warning;
        assert Pieces(s, i, before) == [before] + Pieces(s, i + 1, units);
        DeliverCons(cb, before, Pieces(s, i + 1, units), false, true, callsBefore, warningBefore);
        var flushed;
        flushed, currentIndex, warning, calls := Flush(buffer, currentIndex, warning, cb, calls);
        if flushed.Err? {
          return calls, Returned(Err(flushed.error));
        }
        assert buffer[..currentIndex] == [] && [] + units == units;
      } else {
        assert Pieces(s, i, buffer[..currentIndex]) == Pieces(s, i + 1, buffer[..currentIndex] + units);
      }
      currentIndex := EncodeInto(buffer, currentIndex, c);
      i := i + 1;
    }
    DeliverCons(cb, buffer[..currentIndex], [], false, true, calls, warning);
    assert [buffer[..currentIndex]] + [] == Pieces(s, i, buffer[..currentIndex]);
    var flushed;
    flushed, currentIndex, warning, calls := Flush(buffer, currentIndex, warning, cb, calls);
    if flushed.Err? {
      return calls, Returned(Err(flushed.error));
    }
    return calls, Returned(Ok(warning));
  }

  /** What `with_utf16_str` is meant to do, for any firmware function: every
      string handed over fits the buffer with its terminator and cuts no
      character in two. */
  lemma WithUtf16StrPiecesFit(s: string, cb: Callback)
    ensures var calls := Deliver(cb, Pieces(s, 0, []), false, true, [], Warning.Success).0;
      forall k :: 0 <= k < |calls| ==> |calls[k]| < BUFFER_SIZE - 1 && DecodeUtf16(calls[k]).Some?
  {
    var pieces := Pieces(s, 0, []);
    DeliverCalls(cb, pieces, false, true, [], Warning.Success);
    var calls := Deliver(cb, pieces, false, true, [], Warning.Success).0;
    assert Utf16([]) == [];
    PiecesFit(s, 0, []);
    forall k | 0 <= k < |calls|
      ensures |calls[k]| < BUFFER_SIZE - 1 && DecodeUtf16(calls[k]).Some?
    {
      assert calls[k] == pieces[k];
    }
  }

  /** ... and a run that ends without an error has handed over exactly the
      encoding, in order, and does not panic. */
  lemma WithUtf16StrHandsOverEncoding(s: string, cb: Callback)
    ensures var (calls, out) := Deliver(cb, Pieces(s, 0, []), false, true, [], Warning.Success);
      !(out.Returned? && out.result.Err?) ==> Concat(calls) == Utf16(s) && !out.Panicked?
  {
    var pieces := Pieces(s, 0, []);
    DeliverCalls(cb, pieces, false, true, [], Warning.Success);
    PiecesConcat(s, 0, []);
    assert [] + Utf16(s[0..]) == Utf16(s);
    assert [] + pieces == pieces;
  }

  /** ... and a string of at most 254 units goes over in a single call,
      whose warning or error is what the encoder returns. */
  lemma WithUtf16StrShort(s: string, cb: Callback)
    requires |Utf16(s)| < BUFFER_SIZE - 1
    ensures Deliver(cb, Pieces(s, 0, []), false, true, [], Warning.Success) ==
      ([Utf16(s)], match cb([], Utf16(s)) case Ok(w) => Returned(Ok(w)) case Err(e) => Returned(Err(e)))
  {
    PiecesShort(s);
    DeliverCons(cb, Utf16(s), [], false, true, [], Warning.Success);
    assert [Utf16(s)] + [] == [Utf16(s)];
    var answer := cb([], Utf16(s));
    assert [] + [Utf16(s)] == [Utf16(s)] && [Utf16(s)][0] == Utf16(s) && [Utf16(s)][1..] == [];
    if answer.Ok? {
      assert Deliver(cb, [Utf16(s)], false, true, [], Warning.Success) ==
        Deliver(cb, [], false, true, [Utf16(s)], answer.value);
      assert Deliver(cb, [], false, true, [Utf16(s)], answer.value) == ([Utf16(s)], Returned(Ok(answer.value)));
    } else {
      assert Deliver(cb, [Utf16(s)], false, true, [], Warning.Success) == ([Utf16(s)], Returned(Err(answer.error)));
    }
  }

  /** What `with_utf16_str` does as written, for any firmware function: a
      string of at most 254 units goes over in a single call, null-terminated,
      and a run that returns always returns Warning::Success. */
  lemma WithUtf16StrAsWrittenShort(s: string, cb: Callback)
    ensures var plan := AsWrittenPlan(s, 0, []);
      var (calls, out) := Deliver(cb, plan.pieces, plan.panics, false, [], Warning.Success);
      (out.Returned? && out.result.Ok? ==> out.result.value == Warning.Success) &&
      (|Utf16(s)| < BUFFER_SIZE - 1 ==> calls == [Utf16(s)] && !out.Panicked?)
  {
    var plan := AsWrittenPlan(s, 0, []);
    DeliverKeepsWarning(cb, plan.pieces, plan.panics, [], Warning.Success);
    if |Utf16(s)| < BUFFER_SIZE - 1 {
      AsWrittenShort(s);
      DeliverCons(cb, Utf16(s), [], false, false, [], Warning.Success);
      assert [Utf16(s)] + [] == [Utf16(s)];
    }
  }

  /** A `usize` on the 64-bit targets the crate is built for. */
  type usize = bv64

  /** `ForegroundColor`: the low nibble of a text attribute. */
  datatype ForegroundColor =
    | Black | Blue | Green | Cyan | Red | Magenta | Brown | LightGray
    | DarkGray | LightBlue | LightGreen | LightCyan | LightRed | LightMagenta | Yellow | White
  {
    /** The `repr(usize)` discriminant: 0x00 to 0x0f in declaration order. */
    function Value(): (v: usize)
      ensures v < 0x10
    {
      match this
      case Black => 0x00
      case Blue => 0x01
      case Green => 0x02
      case Cyan => 0x03
      case Red => 0x04
      case Magenta => 0x05
      case Brown => 0x06
      case LightGray => 0x07
      case DarkGray => 0x08
      case LightBlue => 0x09
      case LightGreen => 0x0a
      case LightCyan => 0x0b
      case LightRed => 0x0c
      case LightMagenta => 0x0d
      case Yellow => 0x0e
      case White => 0x0f
    }
  }

  /** The foreground colour whose discriminant is `v`. */
  function ForegroundOf(v: usize): (f: ForegroundColor)
    requires v < 0x10
    ensures f.Value() == v
  {
    if v == 0x00 then ForegroundColor.Black
    else if v == 0x01 then ForegroundColor.Blue
    else if v == 0x02 then ForegroundColor.Green
    else if v == 0x03 then ForegroundColor.Cyan
    else if v == 0x04 then ForegroundColor.Red
    else if v == 0x05 then ForegroundColor.Magenta
    else if v == 0x06 then ForegroundColor.Brown
    else if v == 0x07 then ForegroundColor.LightGray
    else if v == 0x08 then ForegroundColor.DarkGray
    else if v == 0x09 then ForegroundColor.LightBlue
    else if v == 0x0a then ForegroundColor.LightGreen
    else if v == 0x0b then ForegroundColor.LightCyan
    else if v == 0x0c then ForegroundColor.LightRed
    else if v == 0x0d then ForegroundColor.LightMagenta
    else if v == 0x0e then ForegroundColor.Yellow
    else ForegroundColor.White
  }

  /** `BackgroundColor`: bits 4 to 6 of a text attribute. */
  datatype BackgroundColor =
    | Black | Blue | Green | Cyan | Red | Magenta | Brown | LightGray
  {
    /** The `repr(usize)` discriminant: 0x00 to 0x70 in steps of 0x10. */
    function Value(): (v: usize)
      ensures v < 0x80 && v & 0x0f == 0
    {
      match this
      case Black => 0x00
      case Blue => 0x10
      case Green => 0x20
      case Cyan => 0x30
      case Red => 0x40
      case Magenta => 0x50
      case Brown => 0x60
      case LightGray => 0x70
    }
  }

  /** The background colour whose discriminant is `v`. */
  function BackgroundOf(v: usize): (b: BackgroundColor)
    requires v < 0x80 && v & 0x0f == 0
    ensures b.Value() == v
  {
    if v == 0x00 then BackgroundColor.Black
    else if v == 0x10 then BackgroundColor.Blue
    else if v == 0x20 then BackgroundColor.Green
    else if v == 0x30 then BackgroundColor.Cyan
    else if v == 0x40 then BackgroundColor.Red
    else if v == 0x50 then BackgroundColor.Magenta
    else if v == 0x60 then BackgroundColor.Brown
    else BackgroundColor.LightGray
  }

  /** Each colour is the one its discriminant names. */
  lemma ColorValuesDistinct(f: ForegroundColor, g: ForegroundColor, b: BackgroundColor, c: BackgroundColor)
    ensures f.Value() == g.Value() ==> f == g
    ensures b.Value() == c.Value() ==> b == c
  {
  }

  /** A text attribute. */
  datatype Color = Color(value: usize)

  /** `Color::new`: the foreground's bits OR the background's bits. The two
      occupy disjoint bits, so the low nibble is the foreground, bits 4 to 7
      are the background, and the attribute is below 0x80. */
  function ColorNew(foreground: ForegroundColor, background: BackgroundColor): (c: Color)
    ensures c.value < 0x80
    ensures c.value & 0x0f == foreground.Value()
    ensures c.value & 0xf0 == background.Value()
  {
    Color(foreground.Value() | background.Value())
  }

  /** The colours can be read back from the attribute: its low nibble names
      the foreground, its high nibble the background. */
  lemma ColorNewInverse(foreground: ForegroundColor, background: BackgroundColor)
    ensures var v := ColorNew(foreground, background).value;
      ForegroundOf(v & 0x0f) == foreground && BackgroundOf(v & 0xf0) == background
  {
    ColorValuesDistinct(ForegroundOf(foreground.Value()), foreground,
                        BackgroundOf(background.Value()), background);
  }
}
