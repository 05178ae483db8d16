/**
 * The substitution cipher of matala1/Q3/libraryCodec.c. A codec is a 125-byte
 * buffer: the 62 characters of `globalKey`, then the 62 characters of the
 * caller's key, then a NUL. Encoding replaces a character found at position j
 * of `globalKey` by position j of the key; decoding goes the other way; every
 * other character is copied. Both return how many characters they replaced,
 * or -1 for a NULL argument.
 */
module Codec {
  import opened Wrappers
  import opened Search

  const KEY_LENGTH: nat := 62
  /** Bytes allocated for a codec: both keys and the terminating NUL. */
  const CODEC_SIZE: nat := 125

  const LOWERCASE: string := "abcdefghijklmnopqrstuvwxyz"
  const UPPERCASE: string := "ABCDEFGHIJKLMNOPQRSTUVWXYZ"
  const DIGITS: string := "1234567890"

  /** `globalKey`: "abc...xyzABC...XYZ1234567890". */
  const GLOBAL_KEY: string := LOWERCASE + UPPERCASE + DIGITS
  /** `keyEncode`: `globalKey` rotated left by two. */
  const KEY_ENCODE: string := LOWERCASE[2..] + UPPERCASE + DIGITS + "ab"

  /** Where `findCharacterIndex` starts its scan of the codec: one slot before the key. */
  const SCAN_START_AS_WRITTEN: nat := 61
  /** Where the scan should start: the first slot of the key. */
  const SCAN_START: nat := 62

  /** Two positions of the key hold the same character. */
  predicate HasDuplicate(key: seq<char>)
  {
    exists i, j :: 0 <= i < j < |key| && key[i] == key[j]
  }

  /** The buffer `createCodec` fills for a key. */
  function CodecTable(key: seq<char>): (table: seq<char>)
    requires |key| == KEY_LENGTH
    ensures |table| == CODEC_SIZE
    ensures table[..KEY_LENGTH] == GLOBAL_KEY && table[KEY_LENGTH..2 * KEY_LENGTH] == key
    ensures table[2 * KEY_LENGTH] == '\0'
  {
    GLOBAL_KEY + key + ['\0']
  }

  /** What `encode` writes for one character: its image under the table if it is in the first half. */
  function EncodeChar(table: seq<char>, c: char): char
    requires |table| >= 2 * KEY_LENGTH
  {
    match FirstIndex(table[..KEY_LENGTH], c)
    case None => c
    case Some(j) => table[KEY_LENGTH + j]
  }

  /** The output of `encode` over a whole text. */
  function EncodedText(table: seq<char>, text: seq<char>): (out: seq<char>)
    requires |table| >= 2 * KEY_LENGTH
    ensures |out| == |text|
    ensures forall i :: 0 <= i < |text| ==> out[i] == EncodeChar(table, text[i])
  {
    seq(|text|, i requires 0 <= i < |text| => EncodeChar(table, text[i]))
  }

  /** How many characters of the text `encode` replaces: those in the first half of the table. */
  function EncodeCount(table: seq<char>, text: seq<char>): nat
    requires |table| >= KEY_LENGTH
  {
    if text == [] then 0
    else EncodeCount(table, text[..|text| - 1]) + (if text[|text| - 1] in table[..KEY_LENGTH] then 1 else 0)
  }

  /**
   * What the scan of `findCharacterIndex` returns when it starts at `start`:
   * the first matching slot, less 62, or -1 when nothing matches.
   */
  function KeyIndex(table: seq<char>, c: char, start: nat): (k: int)
    requires |table| >= 2 * KEY_LENGTH && SCAN_START_AS_WRITTEN <= start <= SCAN_START
    ensures -1 <= k < KEY_LENGTH
  {
    match FirstIndex(table[start..2 * KEY_LENGTH], c)
    case None => -1
    case Some(j) => start + j - KEY_LENGTH
  }

  /** What `decode` writes for one character, with the scan starting at `start`. */
  function DecodeChar(table: seq<char>, c: char, start: nat): char
    requires |table| >= 2 * KEY_LENGTH && SCAN_START_AS_WRITTEN <= start <= SCAN_START
  {
    var k := KeyIndex(table, c, start);
    if k != -1 then table[k] else c
  }

  /** The output of `decode` over a whole text. */
  function DecodedText(table: seq<char>, text: seq<char>, start: nat): (out: seq<char>)
    requires |table| >= 2 * KEY_LENGTH && SCAN_START_AS_WRITTEN <= start <= SCAN_START
    ensures |out| == |text|
    ensures forall i :: 0 <= i < |text| ==> out[i] == DecodeChar(table, text[i], start)
  {
    seq(|text|, i requires 0 <= i < |text| => DecodeChar(table, text[i], start))
  }

  /** How many characters of the text `decode` replaces. */
  function DecodeCount(table: seq<char>, text: seq<char>, start: nat): nat
    requires |table| >= 2 * KEY_LENGTH && SCAN_START_AS_WRITTEN <= start <= SCAN_START
  {
    if text == [] then 0
    else DecodeCount(table, text[..|text| - 1], start) + (if KeyIndex(table, text[|text| - 1], start) != -1 then 1 else 0)
  }

  // ---------------------------------------------------------------------------
  // The two built-in keys

  /** The character codes of the three runs the keys are made of. */
  lemma LowercaseRun()
    ensures |LOWERCASE| == 26 && forall i :: 0 <= i < 26 ==> LOWERCASE[i] as int == 'a' as int + i
  {
    assert LOWERCASE == "abcdefghijklm" + "nopqrstuvwxyz";
  }

  lemma UppercaseRun()
    ensures |UPPERCASE| == 26 && forall i :: 0 <= i < 26 ==> UPPERCASE[i] as int == 'A' as int + i
  {
    assert UPPERCASE == "ABCDEFGHIJKLM" + "NOPQRSTUVWXYZ";
  }

  lemma DigitRun()
    ensures |DIGITS| == 10 && DIGITS[9] == '0' && forall i :: 0 <= i < 9 ==> DIGITS[i] as int == '1' as int + i
  {
  }

  /** The position of a character in `globalKey`, or -1 for any other character. */
  function GlobalPosition(c: char): int
  {
    if 'a' <= c <= 'z' then c as int - 'a' as int
    else if 'A' <= c <= 'Z' then 26 + (c as int - 'A' as int)
    else if '1' <= c <= '9' then 52 + (c as int - '1' as int)
    else if c == '0' then 61
    else -1
  }

  /** `globalKey` has 62 distinct characters, and its last one is '0'. */
  lemma GlobalKeyDistinct()
    ensures |GLOBAL_KEY| == KEY_LENGTH && !HasDuplicate(GLOBAL_KEY)
    ensures GLOBAL_KEY[SCAN_START_AS_WRITTEN] == '0'
  {
    LowercaseRun();
    UppercaseRun();
    DigitRun();
    forall i | 0 <= i < KEY_LENGTH ensures GlobalPosition(GLOBAL_KEY[i]) == i {
      if i < 26 { assert GLOBAL_KEY[i] == LOWERCASE[i]; }
      else if i < 52 { assert GLOBAL_KEY[i] == UPPERCASE[i - 26]; }
      else { assert GLOBAL_KEY[i] == DIGITS[i - 52]; }
    }
  }

  /** `keyEncode` has 62 distinct characters, so `createCodec` accepts it. */
  lemma KeyEncodeDistinct()
    ensures |KEY_ENCODE| == KEY_LENGTH && !HasDuplicate(KEY_ENCODE)
  {
    LowercaseRun();
    UppercaseRun();
    DigitRun();
    forall i | 0 <= i < KEY_LENGTH ensures GlobalPosition(KEY_ENCODE[i]) == if i < 60 then i + 2 else i - 60 {
      if i < 24 { assert KEY_ENCODE[i] == LOWERCASE[i + 2]; }
      else if i < 50 { assert KEY_ENCODE[i] == UPPERCASE[i - 24]; }
      else if i < 60 { assert KEY_ENCODE[i] == DIGITS[i - 50]; }
      else { assert KEY_ENCODE[i] == "ab"[i - 60]; }
    }
  }

  /**
   * `keyEncode` is `globalKey` rotated left by two, so every character of it is
   * a character of `globalKey`.
   */
  lemma KeyEncodeRotates()
    ensures |KEY_ENCODE| == |GLOBAL_KEY| == KEY_LENGTH
    ensures forall i :: 0 <= i < KEY_LENGTH ==> KEY_ENCODE[i] == GLOBAL_KEY[if i < 60 then i + 2 else i - 60]
    ensures forall c :: c in KEY_ENCODE ==> c in GLOBAL_KEY
  {
    forall i | 0 <= i < KEY_LENGTH ensures KEY_ENCODE[i] == GLOBAL_KEY[if i < 60 then i + 2 else i - 60] {
      if i < 24 { assert KEY_ENCODE[i] == LOWERCASE[i + 2]; }
      else if i < 50 { assert KEY_ENCODE[i] == UPPERCASE[i - 24]; }
      else if i < 60 { assert KEY_ENCODE[i] == DIGITS[i - 50]; }
      else { assert KEY_ENCODE[i] == "ab"[i - 60] && "ab"[i - 60] == LOWERCASE[i - 60]; }
    }
    forall c | c in KEY_ENCODE ensures c in GLOBAL_KEY {
      var i :| 0 <= i < |KEY_ENCODE| && KEY_ENCODE[i] == c;
      assert GLOBAL_KEY[if i < 60 then i + 2 else i - 60] == c;
    }
  }

  // ---------------------------------------------------------------------------
  // What encoding and decoding mean for a codec built from a key

  /** The characters of a sequence, as a set. */
  function Elements(s: seq<char>): set<char>
  {
    if s == [] then {} else {s[0]} + Elements(s[1..])
  }

  lemma {:induction false} ElementsSpec(s: seq<char>)
    ensures forall c :: c in Elements(s) <==> c in s
    ensures |Elements(s)| <= |s|
  {
    if s != [] {
      ElementsSpec(s[1..]);
      assert s == [s[0]] + s[1..];
    }
  }

  /** A repeat is either the head again in the tail, or a repeat within the tail. */
  lemma HasDuplicateCons(key: seq<char>)
    requires key != []
    ensures HasDuplicate(key) <==> key[0] in key[1..] || HasDuplicate(key[1..])
  {
    var rest := key[1..];
    if HasDuplicate(key) {
      var a, b :| 0 <= a < b < |key| && key[a] == key[b];
      if a == 0 { assert rest[b - 1] == key[0]; }
      else { assert rest[a - 1] == rest[b - 1]; }
    }
    if key[0] in rest {
      var j :| 0 <= j < |rest| && rest[j] == key[0];
      assert key[0] == key[j + 1];
    }
    if HasDuplicate(rest) {
      var a, b :| 0 <= a < b < |rest| && rest[a] == rest[b];
      assert key[a + 1] == key[b + 1];
    }
  }

  /** A key has a repeated character exactly when it has fewer distinct characters than positions. */
  lemma {:induction false} DuplicateIffFewerElements(key: seq<char>)
    ensures HasDuplicate(key) <==> |Elements(key)| < |key|
  {
    if key != [] {
      var rest := key[1..];
      DuplicateIffFewerElements(rest);
      ElementsSpec(rest);
      HasDuplicateCons(key);
      if key[0] in rest {
        assert Elements(key) == Elements(rest);
      } else {
        assert key[0] !in Elements(rest);
        assert |Elements(key)| == |Elements(rest)| + 1;
      }
    }
  }

  /**
   * With a codec built from `key`, the character at position j of `globalKey`
   * encodes to position j of the key, and a character outside `globalKey` is
   * copied.
   */
  lemma EncodeWithKey(key: seq<char>, c: char)
    requires |key| == KEY_LENGTH
    ensures c !in GLOBAL_KEY ==> EncodeChar(CodecTable(key), c) == c
    ensures forall j :: 0 <= j < KEY_LENGTH && GLOBAL_KEY[j] == c ==> EncodeChar(CodecTable(key), c) == key[j]
  {
    GlobalKeyDistinct();
    forall j | 0 <= j < KEY_LENGTH && GLOBAL_KEY[j] == c ensures EncodeChar(CodecTable(key), c) == key[j] {
      assert forall k :: 0 <= k < j ==> GLOBAL_KEY[..j][k] == GLOBAL_KEY[k];
      FirstIndexAt(GLOBAL_KEY, c, j);
    }
  }

  /**
   * With the corrected scan and a key without repeats, the character at
   * position k of the key decodes to position k of `globalKey`, and a
   * character outside the key is copied.
   */
  lemma DecodeWithKey(key: seq<char>, c: char)
    requires |key| == KEY_LENGTH && !HasDuplicate(key)
    ensures c !in key ==> DecodeChar(CodecTable(key), c, SCAN_START) == c
    ensures forall k :: 0 <= k < KEY_LENGTH && key[k] == c ==> DecodeChar(CodecTable(key), c, SCAN_START) == GLOBAL_KEY[k]
  {
    forall k | 0 <= k < KEY_LENGTH && key[k] == c ensures DecodeChar(CodecTable(key), c, SCAN_START) == GLOBAL_KEY[k] {
      assert forall m :: 0 <= m < k ==> key[..k][m] == key[m];
      FirstIndexAt(key, c, k);
    }
  }

  /**
   * As written, the scan starts on slot 61, which holds the last character of
   * `globalKey`, '0'; a match there yields -1. So '0' is never decoded, and
   * every other character decodes as with the corrected scan.
   */
  lemma DecodeAsWrittenSkipsZero(key: seq<char>, c: char)
    requires |key| == KEY_LENGTH
    ensures c == '0' ==> KeyIndex(CodecTable(key), c, SCAN_START_AS_WRITTEN) == -1
    ensures c == '0' ==> DecodeChar(CodecTable(key), c, SCAN_START_AS_WRITTEN) == '0'
    ensures c != '0' ==> DecodeChar(CodecTable(key), c, SCAN_START_AS_WRITTEN) == DecodeChar(CodecTable(key), c, SCAN_START)
  {
    GlobalKeyDistinct();
    var table := CodecTable(key);
    var scan := table[SCAN_START_AS_WRITTEN..2 * KEY_LENGTH];
    assert scan[0] == '0';
    assert scan[1..] == table[SCAN_START..2 * KEY_LENGTH];
  }

  /**
   * Decoding with the corrected scan undoes encoding, for a key without
   * repeats and a text whose characters are in `globalKey` or absent from the key.
   */
  lemma RoundTrip(key: seq<char>, text: seq<char>)
    requires |key| == KEY_LENGTH && !HasDuplicate(key)
    requires forall i :: 0 <= i < |text| ==> text[i] in GLOBAL_KEY || text[i] !in key
    ensures DecodedText(CodecTable(key), EncodedText(CodecTable(key), text), SCAN_START) == text
  {
    var table := CodecTable(key);
    forall i | 0 <= i < |text| ensures DecodeChar(table, EncodeChar(table, text[i]), SCAN_START) == text[i] {
      var c := text[i];
      EncodeWithKey(key, c);
      if c in GLOBAL_KEY {
        var j := FirstIndex(GLOBAL_KEY, c).value;
        DecodeWithKey(key, key[j]);
      } else {
        DecodeWithKey(key, c);
      }
    }
  }

  /** As written, decoding undoes encoding as long as no character of the text encodes to '0'. */
  lemma RoundTripAsWritten(key: seq<char>, text: seq<char>)
    requires |key| == KEY_LENGTH && !HasDuplicate(key)
    requires forall i :: 0 <= i < |text| ==> text[i] in GLOBAL_KEY || text[i] !in key
    requires forall i :: 0 <= i < |text| ==> EncodeChar(CodecTable(key), text[i]) != '0'
    ensures DecodedText(CodecTable(key), EncodedText(CodecTable(key), text), SCAN_START_AS_WRITTEN) == text
  {
    RoundTrip(key, text);
    var table := CodecTable(key);
    forall i | 0 <= i < |text|
      ensures DecodeChar(table, EncodeChar(table, text[i]), SCAN_START_AS_WRITTEN)
           == DecodeChar(table, EncodeChar(table, text[i]), SCAN_START)
    {
      DecodeAsWrittenSkipsZero(key, EncodeChar(table, text[i]));
    }
  }

  /**
   * With `keyEncode`, '8' (position 59 of `globalKey`) encodes to '0', which
   * the scan as written leaves undecoded, so "8" comes back as "0"; the
   * corrected scan gives back "8".
   */
  lemma EightComesBackAsZero()
    ensures !HasDuplicate(KEY_ENCODE)
    ensures EncodedText(CodecTable(KEY_ENCODE), "8") == "0"
    ensures DecodedText(CodecTable(KEY_ENCODE), "0", SCAN_START_AS_WRITTEN) == "0"
    ensures DecodeCount(CodecTable(KEY_ENCODE), "0", SCAN_START_AS_WRITTEN) == 0
    ensures DecodedText(CodecTable(KEY_ENCODE), "0", SCAN_START) == "8"
  {
    KeyEncodeDistinct();
    GlobalKeyDistinct();
    assert GLOBAL_KEY[59] == '8' && KEY_ENCODE[59] == '0';
    EncodeWithKey(KEY_ENCODE, '8');
    DecodeAsWrittenSkipsZero(KEY_ENCODE, '0');
    DecodeWithKey(KEY_ENCODE, '0');
    assert "0"[..0] == [];
  }

  /** `encode` counts at most one per character, and all of them exactly when every character is in the first half of the table. */
  lemma {:induction false} EncodeCountSpec(table: seq<char>, text: seq<char>)
    requires |table| >= KEY_LENGTH
    ensures EncodeCount(table, text) <= |text|
    ensures EncodeCount(table, text) == |text| <==> forall i :: 0 <= i < |text| ==> text[i] in table[..KEY_LENGTH]
  {
    if text != [] {
      var init := text[..|text| - 1];
      EncodeCountSpec(table, init);
      assert forall i :: 0 <= i < |init| ==> init[i] == text[i];
    }
  }

  /** `decode` counts at most one per character. */
  lemma {:induction false} DecodeCountBound(table: seq<char>, text: seq<char>, start: nat)
    requires |table| >= 2 * KEY_LENGTH && SCAN_START_AS_WRITTEN <= start <= SCAN_START
    ensures DecodeCount(table, text, start) <= |text|
  {
    if text != [] {
      DecodeCountBound(table, text[..|text| - 1], start);
    }
  }

  /**
   * With the corrected scan `decode` counts every character exactly when
   * every character is in the second half of the table.
   */
  lemma {:induction false} DecodeCountSpec(table: seq<char>, text: seq<char>)
    requires |table| >= 2 * KEY_LENGTH
    ensures DecodeCount(table, text, SCAN_START) == |text| <==> forall i :: 0 <= i < |text| ==> text[i] in table[SCAN_START..2 * KEY_LENGTH]
  {
    if text != [] {
      var init := text[..|text| - 1];
      DecodeCountSpec(table, init);
      DecodeCountBound(table, init, SCAN_START);
      assert forall i :: 0 <= i < |init| ==> init[i] == text[i];
    }
  }

  /** One more character adds one to `decode`'s count when the scan finds it. */
  lemma DecodeCountStep(table: seq<char>, text: seq<char>, i: nat, start: nat)
    requires |table| >= 2 * KEY_LENGTH && SCAN_START_AS_WRITTEN <= start <= SCAN_START
    requires i < |text|
    ensures DecodeCount(table, text[..i + 1], start)
         == DecodeCount(table, text[..i], start) + (if KeyIndex(table, text[i], start) != -1 then 1 else 0)
  {
    assert text[..i + 1][..i] == text[..i];
  }

  /** A character the scan does not find keeps `decode`'s count below the length of any text holding it. */
  lemma {:induction false} DecodeCountMissing(table: seq<char>, text: seq<char>, start: nat, c: char)
    requires |table| >= 2 * KEY_LENGTH && SCAN_START_AS_WRITTEN <= start <= SCAN_START
    requires c in text && KeyIndex(table, c, start) == -1
    ensures DecodeCount(table, text, start) < |text|
  {
    var init := text[..|text| - 1];
    if text[|text| - 1] == c {
      DecodeCountBound(table, init, start);
    } else {
      var j :| 0 <= j < |text| && text[j] == c;
      assert init[j] == c;
      DecodeCountMissing(table, init, start, c);
    }
  }

  /** As written, a '0' anywhere in the text is never counted, so the count falls short of the length. */
  lemma DecodeCountMissesZero(key: seq<char>, text: seq<char>)
    requires |key| == KEY_LENGTH && '0' in text
    ensures DecodeCount(CodecTable(key), text, SCAN_START_AS_WRITTEN) < |text|
  {
    DecodeAsWrittenSkipsZero(key, '0');
    DecodeCountMissing(CodecTable(key), text, SCAN_START_AS_WRITTEN, '0');
  }

  // ---------------------------------------------------------------------------
  // The operations

  /** The two nested loops at the top of `createCodec`: is some character of the key repeated? */
  method FindDuplicate(key: seq<char>) returns (found: bool)
    requires |key| == KEY_LENGTH
    ensures found <==> HasDuplicate(key)
  {
    var i := 0;
    while i < KEY_LENGTH
      invariant 0 <= i <= KEY_LENGTH
      invariant forall a, b :: 0 <= a < i && a < b < KEY_LENGTH ==> key[a] != key[b]
    {
      var j := i + 1;
      while j < KEY_LENGTH
        invariant i + 1 <= j <= KEY_LENGTH
        invariant forall b :: i < b < j ==> key[i] != key[b]
      {
        if key[i] == key[j] {
          return true;
        }
        j := j + 1;
      }
      i := i + 1;
    }
    return false;
  }

  /**
   * `createCodec`: refuse a key with a repeated character, otherwise fill a
   * fresh buffer with `globalKey`, the key and a NUL. `mallocSucceeds` stands
   * for the outcome of the allocation.
   */
  method CreateCodec(key: seq<char>, mallocSucceeds: bool) returns (codec: array?<char>)
    requires |key| == KEY_LENGTH
    ensures codec == null <==> HasDuplicate(key) || !mallocSucceeds
    ensures codec != null ==> fresh(codec) && codec[..] == CodecTable(key)
  {
    var duplicate := FindDuplicate(key);
    if duplicate {
      return null;
    }
    if !mallocSucceeds {
      return null;
    }
    codec := new char[CODEC_SIZE];
    forall k | 0 <= k < KEY_LENGTH {
      codec[k] := GLOBAL_KEY[k];
    }
    forall k | KEY_LENGTH <= k < 2 * KEY_LENGTH {
      codec[k] := key[k - KEY_LENGTH];
    }
    codec[2 * KEY_LENGTH] := '\0';
    assert codec[..] == CodecTable(key);
  }

  /**
   * `encode`: for each of the first `len` characters, look it up in the first
   * half of the codec and write its image, or the character itself, to `textout`.
   */
  method Encode(textin: array?<char>, textout: array?<char>, len: int, codec: array?<char>) returns (count: int)
    requires textin != null ==> len <= textin.Length
    requires textout != null ==> len <= textout.Length
    requires codec != null ==> codec.Length == CODEC_SIZE && codec != textout
    modifies textout
    ensures textin == null || textout == null || codec == null ==>
      count == -1 && (textout != null ==> textout[..] == old(textout[..]))
    ensures textin != null && textout != null && codec != null ==>
      var n := if len < 0 then 0 else len;
      textout[..n] == EncodedText(codec[..], old(textin[..n]))
      && textout[n..] == old(textout[n..])
      && count == EncodeCount(codec[..], old(textin[..n]))
  {
    if textin == null || textout == null || codec == null {
      return -1;
    }
    ghost var n := if len < 0 then 0 else len;
    ghost var input := textin[..n];
    ghost var table := codec[..];
    count := 0;
    var i := 0;
    while i < len
      invariant 0 <= i <= n
      invariant codec[..] == table
      invariant forall k {:trigger textin[k]} :: i <= k < n ==> textin[k] == input[k]
      invariant forall k {:trigger textout[k]} :: 0 <= k < i ==> textout[k] == EncodeChar(table, input[k])
      invariant forall k :: n <= k < textout.Length ==> textout[k] == old(textout[k])
      invariant count == EncodeCount(table, input[..i])
    {
      var c := textin[i];
      var index := -1;
      var j := 0;
      while j < KEY_LENGTH
        invariant 0 <= j <= KEY_LENGTH
        invariant c !in codec[..j]
      {
        if c == codec[j] {
          index := j;
          break;
        }
        j := j + 1;
      }
      assert input[..i + 1][..i] == input[..i];
      if index != -1 {
        assert codec[..j] == table[..KEY_LENGTH][..j];
        FirstIndexAt(table[..KEY_LENGTH], c, j);
        textout[i] := codec[KEY_LENGTH + index];
        count := count + 1;
      } else {
        assert table[..KEY_LENGTH] == codec[..j];
        textout[i] := c;
      }
      i := i + 1;
    }
    assert textout[..n] == EncodedText(table, input);
    assert input[..n] == input;
  }

  /** `findCharacterIndex`, as written: scan codec slots 61 to 123 and return the slot less 62. */
  method FindCharacterIndex(textChar: char, key: array<char>) returns (index: int)
    requires key.Length >= 2 * KEY_LENGTH
    ensures index == KeyIndex(key[..], textChar, SCAN_START_AS_WRITTEN)
  {
    var j := SCAN_START_AS_WRITTEN;
    while j < 2 * KEY_LENGTH
      invariant SCAN_START_AS_WRITTEN <= j <= 2 * KEY_LENGTH
      invariant textChar !in key[SCAN_START_AS_WRITTEN..j]
    {
      if textChar == key[j] {
        assert key[..][SCAN_START_AS_WRITTEN..2 * KEY_LENGTH][..j - SCAN_START_AS_WRITTEN] == key[SCAN_START_AS_WRITTEN..j];
        FirstIndexAt(key[..][SCAN_START_AS_WRITTEN..2 * KEY_LENGTH], textChar, j - SCAN_START_AS_WRITTEN);
        return j - KEY_LENGTH;
      }
      j := j + 1;
    }
    assert key[..][SCAN_START_AS_WRITTEN..2 * KEY_LENGTH] == key[SCAN_START_AS_WRITTEN..j];
    return -1;
  }

  /** The scan with its start corrected to slot 62, the first slot of the key. */
  method FindCharacterIndexCorrected(textChar: char, key: array<char>) returns (index: int)
    requires key.Length >= 2 * KEY_LENGTH
    ensures index == KeyIndex(key[..], textChar, SCAN_START)
  {
    var j := SCAN_START;
    while j < 2 * KEY_LENGTH
      invariant SCAN_START <= j <= 2 * KEY_LENGTH
      invariant textChar !in key[SCAN_START..j]
    {
      if textChar == key[j] {
        assert key[..][SCAN_START..2 * KEY_LENGTH][..j - SCAN_START] == key[SCAN_START..j];
        FirstIndexAt(key[..][SCAN_START..2 * KEY_LENGTH], textChar, j - SCAN_START);
        return j - KEY_LENGTH;
      }
      j := j + 1;
    }
    assert key[..][SCAN_START..2 * KEY_LENGTH] == key[SCAN_START..j];
    return -1;
  }

  /**
   * The body of `decode`'s loop at position i: ask the scan starting at
   * `start` for the key position of the input character and write its
   * decoding. Returns whether the scan found it.
   */
  method DecodeAt(textin: array<char>, textout: array<char>, i: nat, codec: array<char>, start: nat) returns (found: bool)
    requires i < textin.Length && i < textout.Length && codec.Length == CODEC_SIZE && codec != textout
    requires start == SCAN_START_AS_WRITTEN || start == SCAN_START
    modifies textout
    ensures found <==> KeyIndex(codec[..], old(textin[i]), start) != -1
    ensures textout[i] == DecodeChar(codec[..], old(textin[i]), start)
    ensures forall k :: 0 <= k < textout.Length && k != i ==> textout[k] == old(textout[k])
  {
    var index;
    if start == SCAN_START_AS_WRITTEN {
      index := FindCharacterIndex(textin[i], codec);
    } else {
      index := FindCharacterIndexCorrected(textin[i], codec);
    }
    found := index != -1;
    var decoded := if found then codec[index] else textin[i];
    textout[i] := decoded;
  }

  /**
   * `decode`'s loop with the scan starting at `start`: for each of the first
   * `len` characters ask the scan for its key position k and write
   * `globalKey[k]`, or the character itself when k is -1. Returns -1 when a
   * buffer is missing, otherwise how many characters the scan found.
   */
  method DecodeScan(textin: array?<char>, textout: array?<char>, len: int, codec: array?<char>, start: nat) returns (count: int)
    requires textin != null ==> len <= textin.Length
    requires textout != null ==> len <= textout.Length
    requires codec != null ==> codec.Length == CODEC_SIZE && codec != textout
    requires start == SCAN_START_AS_WRITTEN || start == SCAN_START
    modifies textout
    ensures textin == null || textout == null || codec == null ==>
      count == -1 && (textout != null ==> textout[..] == old(textout[..]))
    ensures textin != null && textout != null && codec != null ==>
      var n := if len < 0 then 0 else len;
      textout[..n] == DecodedText(codec[..], old(textin[..n]), start)
      && textout[n..] == old(textout[n..])
      && count == DecodeCount(codec[..], old(textin[..n]), start)
  {
    if textin == null || textout == null || codec == null {
      return -1;
    }
    ghost var n := if len < 0 then 0 else len;
    ghost var input := textin[..n];
    ghost var table := codec[..];
    count := 0;
    var i := 0;
    while i < len
      invariant 0 <= i <= n
      invariant codec[..] == table
      invariant forall k {:trigger textin[k]} :: i <= k < n ==> textin[k] == input[k]
      invariant forall k {:trigger textout[k]} :: 0 <= k < i ==> textout[k] == DecodeChar(table, input[k], start)
      invariant forall k :: n <= k < textout.Length ==> textout[k] == old(textout[k])
      invariant count == DecodeCount(table, input[..i], start)
    {
      assert textin[i] == input[i];
      var found := DecodeAt(textin, textout, i, codec, start);
      assert codec[..] == table;
      DecodeCountStep(table, input, i, start);
      if found {
        count := count + 1;
      }
      i := i + 1;
    }
    assert textout[..n] == DecodedText(table, input, start);
    assert textout[n..] == old(textout[n..]);
    assert input[..n] == input && old(textin[..n]) == input;
  }

  /** `decode`, as written: the scan starts at position 61. */
  method Decode(textin: array?<char>, textout: array?<char>, len: int, codec: array?<char>) returns (count: int)
    requires textin != null ==> len <= textin.Length
    requires textout != null ==> len <= textout.Length
    requires codec != null ==> codec.Length == CODEC_SIZE && codec != textout
    modifies textout
    ensures textin == null || textout == null || codec == null ==>
      count == -1 && (textout != null ==> textout[..] == old(textout[..]))
    ensures textin != null && textout != null && codec != null ==>
      var n := if len < 0 then 0 else len;
      textout[..n] == DecodedText(codec[..], old(textin[..n]), SCAN_START_AS_WRITTEN)
      && textout[n..] == old(textout[n..])
      && count == DecodeCount(codec[..], old(textin[..n]), SCAN_START_AS_WRITTEN)
  {
    count := DecodeScan(textin, textout, len, codec, SCAN_START_AS_WRITTEN);
  }

  /** `decode` with the corrected scan, which starts at position 62. */
  method DecodeCorrected(textin: array?<char>, textout: array?<char>, len: int, codec: array?<char>) returns (count: int)
    requires textin != null ==> len <= textin.Length
    requires textout != null ==> len <= textout.Length
    requires codec != null ==> codec.Length == CODEC_SIZE && codec != textout
    modifies textout
    ensures textin == null || textout == null || codec == null ==>
      count == -1 && (textout != null ==> textout[..] == old(textout[..]))
    ensures textin != null && textout != null && codec != null ==>
      var n := if len < 0 then 0 else len;
      textout[..n] == DecodedText(codec[..], old(textin[..n]), SCAN_START)
      && textout[n..] == old(textout[n..])
      && count == DecodeCount(codec[..], old(textin[..n]), SCAN_START)
  {
    count := DecodeScan(textin, textout, len, codec, SCAN_START);
  }

  /**
   * A caller's round trip: build a codec from `keyEncode`, encode any text,
   * decode it with the corrected scan, and get the text back.
   */
  method EncodeThenDecode(text: array<char>) returns (decoded: seq<char>)
    ensures decoded == text[..]
  {
    KeyEncodeDistinct();
    KeyEncodeRotates();
    ghost var input := text[..];
    ghost var table := CodecTable(KEY_ENCODE);
    var codec := CreateCodec(KEY_ENCODE, true);
    assert codec[..] == table;
    var encoded := new char[text.Length];
    var _ := Encode(text, encoded, text.Length, codec);
    assert encoded[..] == EncodedText(table, input) by {
      assert encoded[..text.Length] == encoded[..];
    }
    var plain := new char[text.Length];
    var _ := DecodeCorrected(encoded, plain, text.Length, codec);
    assert plain[..] == DecodedText(table, EncodedText(table, input), SCAN_START) by {
      assert plain[..text.Length] == plain[..];
    }
    RoundTrip(KEY_ENCODE, input);
    decoded := plain[..];
  }
}
