/** snprintf: the format parser, and output into a buffer that may be too short. */
module Printf {
  import opened Words
  import opened Numerals
  import opened Ntoa
  import opened NtoaReads

  type Word = w: nat | w < 0x1_0000_0000

  /** The characters of a string before its terminator. */
  type CString = s: seq<char> | '\0' !in s

  /** The variable arguments: the words on the stack, and the strings that words may point at. */
  datatype Args = Args(stack: nat -> Word, memory: Word -> CString)

  /** What stands between '%' and the specifier: where it ends, and how many words it took. */
  datatype Head = Head(flags: Flags, width: nat, prec: nat, at: nat, used: nat)

  function CharAt(fmt: CString, i: nat): char {
    if i < |fmt| then fmt[i] else '\0'
  }

  function SignedWord(w: nat, bits: nat): int
    requires bits in {0x80, 0x8000, 0x8000_0000}
  {
    if w % (2 * bits) < bits then w % (2 * bits) else w % (2 * bits) - 2 * bits
  }

  predicate IsFlag(c: char) {
    c in {'0', '-', '+', ' ', '#'}
  }

  function WithFlag(f: Flags, c: char): Flags {
    f.(zeropad := f.zeropad || c == '0', left := f.left || c == '-', plus := f.plus || c == '+',
       space := f.space || c == ' ', hash := f.hash || c == '#')
  }

  function AfterFlags(fmt: CString, h: Head): (r: Head)
    ensures r.at >= h.at
    decreases |fmt| - h.at
  {
    if h.at < |fmt| && IsFlag(fmt[h.at]) then
      AfterFlags(fmt, h.(flags := WithFlag(h.flags, fmt[h.at]), at := h.at + 1))
    else h
  }

  /** The number written at i, as the parser reads it. */
  function NumberAt(fmt: CString, i: nat): (nat, nat)
    requires i <= |fmt|
  {
    var end := DigitRun(fmt, i);
    (Value(fmt[i..end], 10) % 0x1_0000_0000, end)
  }

  function AfterWidth(fmt: CString, args: Args, h: Head): (r: Head)
    ensures r.at >= h.at
  {
    if IsDigit(CharAt(fmt, h.at)) then
      var (width, at) := NumberAt(fmt, h.at);
      h.(width := width, at := at)
    else if CharAt(fmt, h.at) == '*' then
      var w := SignedWord(args.stack(h.used), 0x8000_0000);
      h.(flags := if w < 0 then h.flags.(left := true) else h.flags, width := if w < 0 then -w else w,
         at := h.at + 1, used := h.used + 1)
    else h
  }

  function AfterPrecision(fmt: CString, args: Args, h: Head): (r: Head)
    ensures r.at >= h.at
  {
    if CharAt(fmt, h.at) != '.' then h
    else
      var g := h.(flags := h.flags.(precision := true), at := h.at + 1);
      if IsDigit(CharAt(fmt, g.at)) then
        var (prec, at) := NumberAt(fmt, g.at);
        g.(prec := prec, at := at)
      else if CharAt(fmt, g.at) == '*' then
        g.(prec := Max(SignedWord(args.stack(g.used), 0x8000_0000), 0), at := g.at + 1, used := g.used + 1)
      else g
  }

  /** On this target long, ptrdiff_t and size_t are words; long long and intmax_t are two. */
  function AfterLength(fmt: CString, h: Head): (r: Head)
    ensures r.at >= h.at
  {
    var c, d := CharAt(fmt, h.at), CharAt(fmt, h.at + 1);
    if c == 'l' then
      if d == 'l' then h.(flags := h.flags.(long := true, long_long := true), at := h.at + 2)
      else h.(flags := h.flags.(long := true), at := h.at + 1)
    else if c == 'h' then
      if d == 'h' then h.(flags := h.flags.(short := true, char_ := true), at := h.at + 2)
      else h.(flags := h.flags.(short := true), at := h.at + 1)
    else if c == 't' || c == 'z' then h.(flags := h.flags.(long := true), at := h.at + 1)
    else if c == 'j' then h.(flags := h.flags.(long_long := true), at := h.at + 1)
    else h
  }

  function HeadAt(fmt: CString, args: Args, i: nat, used: nat): (r: Head)
    ensures r.at >= i
  {
    AfterLength(fmt, AfterPrecision(fmt, args, AfterWidth(fmt, args, AfterFlags(fmt, Head(NO_FLAGS, 0, 0, i, used)))))
  }

  predicate IsInteger(c: char) {
    c in {'d', 'i', 'u', 'x', 'X', 'o', 'b'}
  }

  predicate IsFloat(c: char) {
    c in {'f', 'F', 'e', 'E', 'g', 'G'}
  }

  function BaseOf(c: char): nat {
    if c == 'x' || c == 'X' then 16 else if c == 'o' then 8 else if c == 'b' then 2 else 10
  }

  function IntegerFlags(c: char, f: Flags): Flags {
    var signed := c == 'i' || c == 'd';
    f.(hash := f.hash && BaseOf(c) != 10, uppercase := f.uppercase || c == 'X',
       plus := f.plus && signed, space := f.space && signed, zeropad := f.zeropad && !f.precision)
  }

  /** The argument of an integer conversion, and how many words it takes. */
  function IntegerArg(c: char, f: Flags, args: Args, used: nat): (int, nat) {
    var w := args.stack(used);
    var long := w + 0x1_0000_0000 * args.stack(used + 1);
    if c == 'i' || c == 'd' then
      if f.long_long then (if long < 0x8000_0000_0000_0000 then long else long - 0x1_0000_0000_0000_0000, 2)
      else if f.long then (SignedWord(w, 0x8000_0000), 1)
      else (SignedWord(w, if f.char_ then 0x80 else if f.short then 0x8000 else 0x8000_0000), 1)
    else if f.long_long then (long, 2)
    else if f.long then (w, 1)
    else (if f.char_ then w % 0x100 else if f.short then w % 0x1_0000 else w, 1)
  }

  function Justified(text: seq<char>, width: nat, f: Flags): seq<char> {
    if f.left then text + Fill(' ', width - |text|) else Fill(' ', width - |text|) + text
  }

  function Cut(s: CString, h: Head): seq<char> {
    if h.flags.precision && h.prec < |s| then s[..h.prec] else s
  }

  /** The text of one conversion, and how many words were taken up to its end. */
  function Converted(c: char, args: Args, h: Head): (seq<char>, nat) {
    if IsInteger(c) then
      var f := IntegerFlags(c, h.flags);
      var (v, words) := IntegerArg(c, f, args, h.used);
      (NumberText(if v < 0 then -v else v, v < 0, BaseOf(c), h.prec, h.width, f), h.used + words)
    else if c == 'c' then (Justified([(args.stack(h.used) % 0x100) as char], h.width, h.flags), h.used + 1)
    else if c == 's' then (Justified(Cut(args.memory(args.stack(h.used)), h), h.width, h.flags), h.used + 1)
    else if c == 'p' then
      (NumberText(args.stack(h.used), false, 16, h.prec, 8, h.flags.(zeropad := true, uppercase := true)), h.used + 1)
    else ([c], h.used)
  }

  function Prepended(s: seq<char>, rest: Option<seq<char>>): Option<seq<char>> {
    match rest
    case None => None
    case Some(t) => Some(s + t)
  }

  /** The untruncated output from position i of the format on. There is none if the format ends inside a
      conversion, and floating-point conversions are not part of this model. */
  function Formatted(fmt: CString, args: Args, i: nat, used: nat): Option<seq<char>>
    decreases |fmt| - i
  {
    if i >= |fmt| then Some([])
    else if fmt[i] != '%' then Prepended([fmt[i]], Formatted(fmt, args, i + 1, used))
    else
      var h := HeadAt(fmt, args, i + 1, used);
      if h.at >= |fmt| || IsFloat(fmt[h.at]) then None
      else
        var (text, next) := Converted(fmt[h.at], args, h);
        Prepended(text, Formatted(fmt, args, h.at + 1, next))
  }

  /** A buffer of which maxlen characters may be written, or none at all, and the text sent to it so far. */
  class Output {
    const buffer: array?<char>
    const maxlen: Word
    ghost const was: seq<char>
    ghost var text: seq<char>

    /** The buffer shows as much of the text as it may hold, and is unchanged after it. */
    ghost predicate Valid() reads this, buffer {
      buffer != null ==>
        && maxlen <= buffer.Length == |was|
        && var n := Min(|text|, maxlen);
           buffer[..n] == text[..n] && buffer[n..] == was[n..]
    }

    ghost predicate Ready(idx: nat) reads this, buffer {
      Valid() && idx == |text|
    }

    constructor (buffer: array?<char>, maxlen: Word)
      requires buffer != null ==> maxlen <= buffer.Length
      ensures Ready(0) && text == [] && this.buffer == buffer && this.maxlen == maxlen
      ensures buffer != null ==> was == buffer[..]
    {
      this.buffer, this.maxlen, text := buffer, maxlen, [];
      was := if buffer == null then [] else buffer[..];
    }

    /** One call of the output function, and the index moved on. */
    method Put(c: char, idx: nat) returns (next: nat)
      requires Ready(idx)
      modifies this, buffer
      ensures Ready(next) && text == old(text) + [c]
    {
      if buffer != null && idx < maxlen {
        buffer[idx] := c;
      }
      text := text + [c];
      next := idx + 1;
    }

    /** The padding loops: a space for every number from i up to width. */
    method PutSpaces(from: nat, width: nat, idx: nat) returns (next: nat)
      requires Ready(idx)
      modifies this, buffer
      ensures Ready(next) && text == old(text) + Fill(' ', width - from)
    {
      hide Valid;
      next := idx;
      var i := from;
      assert text + Fill(' ', 0) == text;
      while i < width
        invariant from <= i && (i <= width || i == from)
        invariant Ready(next) && text == old(text) + Fill(' ', i - from)
      {
        assert Fill(' ', i + 1 - from) == Fill(' ', i - from) + [' '];
        next := Put(' ', next);
        i := i + 1;
      }
    }

    method OutRev(buf: array<char>, len: nat, width: nat, f: Flags, idx: nat) returns (next: nat)
      requires Ready(idx) && len <= buf.Length && buf != buffer
      modifies this, buffer
      ensures Ready(next) && text == old(text) + RevText(buf[..len], width, f)
    {
      hide Valid, Fill, Reverse;
      next := idx;
      if !f.left && !f.zeropad {
        next := PutSpaces(len, width, next);
      }
      ghost var before := text;
      var left := len;
      ReverseOfNothing(buf[len..len]);
      while left != 0
        invariant 0 <= left <= len
        invariant Ready(next) && text == before + Reverse(buf[left..len])
      {
        left := left - 1;
        ReverseOfFirst(buf[left..len], buf[left], buf[left + 1..len]);
        next := Put(buf[left], next);
      }
      assert buf[0..len] == buf[..len];
      if f.left {
        next := PutSpaces(len, width, next);
      }
    }

    /** One of the two loops that pad leading zeros. */
    static method PadZeros(buf: array<char>, from: nat, upto: nat) returns (len: nat)
      requires from <= buf.Length == BUFFER_SIZE
      modifies buf
      ensures from <= len <= BUFFER_SIZE && buf[..len] == ZeroPad(old(buf[..from]), upto)
    {
      len := from;
      assert buf[..from] + Fill('0', 0) == buf[..from];
      while len < upto && len < BUFFER_SIZE
        invariant from <= len <= BUFFER_SIZE && len <= Max(from, Min(upto, BUFFER_SIZE))
        invariant buf[..len] == old(buf[..from]) + Fill('0', len - from)
      {
        assert Fill('0', len + 1 - from) == Fill('0', len - from) + ['0'];
        buf[len] := '0';
        len := len + 1;
      }
    }

    static method Push(buf: array<char>, from: nat, c: char) returns (len: nat)
      requires from <= buf.Length == BUFFER_SIZE
      modifies buf
      ensures from <= len <= BUFFER_SIZE && buf[..len] == Pushed(old(buf[..from]), c)
    {
      len := from;
      if len < BUFFER_SIZE {
        buf[len] := c;
        len := len + 1;
      }
    }

    /** Leading zeros. The width comes back as later steps use it. */
    static method Pad(buf: array<char>, from: nat, negative: bool, prec: nat, width: nat, f: Flags)
      returns (len: nat, w: nat)
      requires from <= buf.Length == BUFFER_SIZE
      modifies buf
      ensures len <= BUFFER_SIZE && w == NumberWidth(negative, width, f)
      ensures buf[..len] == Padded(old(buf[..from]), prec, w, f)
    {
      hide ZeroPad;
      len, w := from, width;
      if !f.left {
        if width != 0 && f.zeropad && (negative || f.plus || f.space) {
          w := width - 1;
        }
        len := PadZeros(buf, len, prec);
        if f.zeropad {
          len := PadZeros(buf, len, w);
        }
      }
    }

    /** The '#' flag's prefix, last character first. */
    static method Prefix(buf: array<char>, from: nat, base: nat, prec: nat, width: nat, f: Flags) returns (len: nat)
      requires from <= buf.Length == BUFFER_SIZE && f.hash
      modifies buf
      ensures len <= BUFFER_SIZE && buf[..len] == Prefixed(old(buf[..from]), base, prec, width, f)
    {
      hide Pushed;
      len := from;
      if !f.precision && len != 0 && (len == prec || len == width) {
        len := len - 1;
        if len != 0 && base == 16 {
          len := len - 1;
        }
      }
      assert buf[..len] == MadeRoom(buf[..from], base, prec, width, f);
      if base == 16 && !f.uppercase {
        len := Push(buf, len, 'x');
      } else if base == 16 && f.uppercase {
        len := Push(buf, len, 'X');
      } else if base == 2 {
        len := Push(buf, len, 'b');
      }
      len := Push(buf, len, '0');
    }

    method NtoaFormat(buf: array<char>, from: nat, negative: bool, base: nat, prec: nat, width: nat, f: Flags, idx: nat)
      returns (next: nat)
      requires Ready(idx) && from <= buf.Length == BUFFER_SIZE && buf != buffer
      modifies this, buffer, buf
      ensures Ready(next) && text == old(text) + FormatText(old(buf[..from]), negative, base, prec, width, f)
    {
      hide Valid, RevText, Padded, MadeRoom, NumberWidth, Pushed;
      var len, w := Pad(buf, from, negative, prec, width, f);
      if f.hash {
        len := Prefix(buf, len, base, prec, w, f);
      }
      ghost var unsigned := buf[..len];
      if len < BUFFER_SIZE {
        if negative {
          buf[len] := '-';
          len := len + 1;
        } else if f.plus {
          buf[len] := '+';
          len := len + 1;
        } else if f.space {
          buf[len] := ' ';
          len := len + 1;
        }
      }
      assert buf[..len] == Signed(unsigned, negative, f);
      next := OutRev(buf, len, w, f, idx);
    }

    /** _ntoa_long and _ntoa_long_long, which differ in the width of value only. */
    method NtoaLong(value: nat, negative: bool, base: nat, prec: nat, width: nat, f: Flags, idx: nat)
        returns (next: nat)
      requires Ready(idx) && 2 <= base <= 36
      modifies this, buffer
      ensures Ready(next) && text == old(text) + NumberText(value, negative, base, prec, width, f)
    {
      hide Valid, FormatText, DigitsOrNothing;
      var buf := new char[BUFFER_SIZE];
      var len := PutNumber(buf, value, base, f);
      next := NtoaFormat(buf, len, negative, base, prec, width, if value == 0 then f.(hash := false) else f, idx);
    }

    static method PutNumber(buf: array<char>, value: nat, base: nat, f: Flags) returns (len: nat)
      requires buf.Length == BUFFER_SIZE && 2 <= base <= 36
      modifies buf
      ensures len <= BUFFER_SIZE && buf[..len] == DigitsOrNothing(value, base, f)
    {
      hide LowDigits;
      len := 0;
      if !f.precision || value != 0 {
        len := PutDigits(buf, value, base, f.uppercase);
      }
    }

    /** The conversion loop: digits, last one first, until none are left or the buffer is full. */
    static method PutDigits(buf: array<char>, value: nat, base: nat, upper: bool) returns (len: nat)
      requires buf.Length == BUFFER_SIZE && 2 <= base <= 36
      modifies buf
      ensures 0 < len <= BUFFER_SIZE && buf[..len] == LowDigits(value, base, upper, BUFFER_SIZE)
    {
      hide DigitChar, LowDigits;
      DigitsStart(buf[..], LowDigits(value, base, upper, BUFFER_SIZE));
      len := 0;
      var v: nat, more := value, true;
      while more
        invariant 0 <= len <= BUFFER_SIZE && (more ==> len < BUFFER_SIZE) && (more || len > 0)
        invariant LowDigits(value, base, upper, BUFFER_SIZE) ==
                  buf[..len] + (if more then LowDigits(v, base, upper, BUFFER_SIZE - len) else [])
        decreases BUFFER_SIZE - len
      {
        ghost var written := buf[..len];
        var digit, rest := v % base, v / base;
        LowDigitsStep(written, v, base, upper, BUFFER_SIZE - len, digit, rest);
        buf[len] := DigitChar(digit, upper);
        len := len + 1;
        assert buf[..len] == written + [buf[len - 1]];
        v := rest;
        more := v != 0 && len < BUFFER_SIZE;
      }
    }

    method PutText(s: seq<char>, idx: nat) returns (next: nat)
      requires Ready(idx)
      modifies this, buffer
      ensures Ready(next) && text == old(text) + s
    {
      hide Valid;
      next := idx;
      for i := 0 to |s|
        invariant Ready(next) && text == old(text) + s[..i]
      {
        next := Put(s[i], next);
      }
    }

    /** Text in its field: spaces before it, or after it. */
    method PutJustified(s: seq<char>, width: nat, f: Flags, idx: nat) returns (next: nat)
      requires Ready(idx)
      modifies this, buffer
      ensures Ready(next) && text == old(text) + Justified(s, width, f)
    {
      hide Valid, Fill;
      next := idx;
      if !f.left {
        next := PutSpaces(|s|, width, next);
      }
      next := PutText(s, next);
      if f.left {
        next := PutSpaces(|s|, width, next);
      }
    }

    method Convert(c: char, args: Args, h: Head, idx: nat) returns (used: nat, next: nat)
      requires Ready(idx) && !IsFloat(c)
      modifies this, buffer
      ensures Ready(next) && text == old(text) + Converted(c, args, h).0 && used == Converted(c, args, h).1
    {
      hide Valid, Justified, NumberText;
      used, next := h.used, idx;
      if IsInteger(c) {
        var f := IntegerFlags(c, h.flags);
        var (v, words) := IntegerArg(c, f, args, h.used);
        next := NtoaLong(if v < 0 then -v else v, v < 0, BaseOf(c), h.prec, h.width, f, next);
        used := used + words;
      } else if c == 'c' {
        next := PutJustified([(args.stack(h.used) % 0x100) as char], h.width, h.flags, next);
        used := used + 1;
      } else if c == 's' {
        next := PutJustified(Cut(args.memory(args.stack(h.used)), h), h.width, h.flags, next);
        used := used + 1;
      } else if c == 'p' {
        next := NtoaLong(args.stack(h.used), false, 16, h.prec, 8, h.flags.(zeropad := true, uppercase := true), next);
        used := used + 1;
      } else {
        next := Put(c, next);
      }
    }

    /** The loop over the format. */
    method Vsnprintf(fmt: CString, args: Args) returns (n: nat)
      requires Ready(0) && text == [] && Formatted(fmt, args, 0, 0).Some?
      modifies this, buffer
      ensures text == Formatted(fmt, args, 0, 0).value && n == |text|
      ensures buffer != null && maxlen > 0 ==>
                var k := Min(n, maxlen - 1);
                && |was| == buffer.Length
                && buffer[..k] == text[..k] && buffer[k] == '\0' && buffer[k + 1..] == was[k + 1..]
      ensures buffer != null && maxlen == 0 ==> buffer[..] == was
    {
      hide Converted, Formatted, Valid;
      var i: nat, used, idx := 0, 0, 0;
      PrependTwice([], [], Formatted(fmt, args, 0, 0));
      while i < |fmt|
        invariant Ready(idx)
        invariant Formatted(fmt, args, 0, 0) == Prepended(text, Formatted(fmt, args, i, used))
        decreases |fmt| - i
      {
        if fmt[i] != '%' {
          PlainAt(fmt, args, i, used);
          PrependTwice(text, [fmt[i]], Formatted(fmt, args, i + 1, used));
          idx := Put(fmt[i], idx);
          i := i + 1;
        } else {
          ConversionAt(fmt, args, i, used);
          var h := ReadHead(fmt, args, i + 1, used);
          PrependTwice(text, Converted(fmt[h.at], args, h).0,
                       Formatted(fmt, args, h.at + 1, Converted(fmt[h.at], args, h).1));
          used, idx := Convert(fmt[h.at], args, h, idx);
          i := h.at + 1;
        }
      }
      FormattedEnd(fmt, args, i, used);
      n := idx;
      Terminate(idx);
    }

    /** The last call of the output function. If maxlen is 0, maxlen - 1 wraps and nothing is written. */
    method Terminate(idx: nat)
      requires Ready(idx)
      modifies buffer
      ensures buffer != null && maxlen > 0 ==>
                var k := Min(idx, maxlen - 1);
                && |was| == buffer.Length
                && buffer[..k] == text[..k] && buffer[k] == '\0' && buffer[k + 1..] == was[k + 1..]
      ensures buffer != null && maxlen == 0 ==> buffer[..] == was
    {
      var last := if idx < maxlen then idx else (maxlen - 1) % 0x1_0000_0000;
      if buffer != null && last < maxlen {
        ghost var n, shown := Min(|text|, maxlen), buffer[..];
        assert shown[..last] == shown[..n][..last] && shown[last + 1..] == was[last + 1..];
        buffer[last] := '\0';
        assert buffer[..last] == shown[..last] && buffer[last + 1..] == shown[last + 1..];
      }
    }
  }

  lemma PlainAt(fmt: CString, args: Args, i: nat, used: nat)
    requires i < |fmt| && fmt[i] != '%'
    ensures Formatted(fmt, args, i, used) == Prepended([fmt[i]], Formatted(fmt, args, i + 1, used))
  {
  }

  lemma ConversionAt(fmt: CString, args: Args, i: nat, used: nat)
    requires i < |fmt| && fmt[i] == '%' && Formatted(fmt, args, i, used).Some?
    ensures var h := HeadAt(fmt, args, i + 1, used);
            && h.at < |fmt| && !IsFloat(fmt[h.at])
            && Formatted(fmt, args, i, used) ==
               Prepended(Converted(fmt[h.at], args, h).0,
                         Formatted(fmt, args, h.at + 1, Converted(fmt[h.at], args, h).1))
  {
    hide Converted, HeadAt, IsFloat;
  }

  lemma PrependTwice(s: seq<char>, t: seq<char>, rest: Option<seq<char>>)
    ensures Prepended(s, Prepended(t, rest)) == Prepended(s + t, rest)
    ensures Prepended([], rest) == rest
  {
    if rest.Some? {
      assert s + (t + rest.value) == s + t + rest.value;
      assert [] + rest.value == rest.value;
    }
  }

  lemma FormattedEnd(fmt: CString, args: Args, i: nat, used: nat)
    requires i >= |fmt|
    ensures Formatted(fmt, args, i, used) == Some([])
  {
  }

  method ReadFlags(fmt: CString, before: Head) returns (h: Head)
    ensures h == AfterFlags(fmt, before)
  {
    h := before;
    while h.at < |fmt| && IsFlag(fmt[h.at])
      invariant AfterFlags(fmt, h) == AfterFlags(fmt, before)
      decreases |fmt| - h.at
    {
      h := h.(flags := WithFlag(h.flags, fmt[h.at]), at := h.at + 1);
    }
  }

  method ReadWidth(fmt: CString, args: Args, before: Head) returns (h: Head)
    ensures h == AfterWidth(fmt, args, before)
  {
    hide SignedWord, Value, DigitRun;
    h := before;
    if IsDigit(CharAt(fmt, h.at)) {
      var width, at := Atoi(fmt, h.at);
      h := h.(width := width, at := at);
    } else if CharAt(fmt, h.at) == '*' {
      var w := SignedWord(args.stack(h.used), 0x8000_0000);
      if w < 0 {
        h := h.(flags := h.flags.(left := true), width := -w);
      } else {
        h := h.(width := w);
      }
      h := h.(at := h.at + 1, used := h.used + 1);
    }
  }

  method ReadPrecision(fmt: CString, args: Args, before: Head) returns (h: Head)
    ensures h == AfterPrecision(fmt, args, before)
  {
    hide SignedWord, Value, DigitRun;
    h := before;
    if CharAt(fmt, h.at) == '.' {
      h := h.(flags := h.flags.(precision := true), at := h.at + 1);
      if IsDigit(CharAt(fmt, h.at)) {
        var prec, at := Atoi(fmt, h.at);
        h := h.(prec := prec, at := at);
      } else if CharAt(fmt, h.at) == '*' {
        var prec := SignedWord(args.stack(h.used), 0x8000_0000);
        h := h.(prec := if prec > 0 then prec else 0, at := h.at + 1, used := h.used + 1);
      }
    }
  }

  /** The parser's steps from the flags to the length. */
  method ReadHead(fmt: CString, args: Args, from: nat, used: nat) returns (h: Head)
    ensures h == HeadAt(fmt, args, from, used)
  {
    hide AfterFlags, AfterWidth, AfterPrecision, AfterLength;
    h := ReadFlags(fmt, Head(NO_FLAGS, 0, 0, from, used));
    h := ReadWidth(fmt, args, h);
    h := ReadPrecision(fmt, args, h);
    h := ReadLength(fmt, h);
  }

  method ReadLength(fmt: CString, before: Head) returns (h: Head)
    ensures h == AfterLength(fmt, before)
  {
    h := before;
    match CharAt(fmt, h.at) {
      case 'l' =>
        h := h.(flags := h.flags.(long := true), at := h.at + 1);
        if CharAt(fmt, h.at) == 'l' {
          h := h.(flags := h.flags.(long_long := true), at := h.at + 1);
        }
      case 'h' =>
        h := h.(flags := h.flags.(short := true), at := h.at + 1);
        if CharAt(fmt, h.at) == 'h' {
          h := h.(flags := h.flags.(char_ := true), at := h.at + 1);
        }
      case 't' => h := h.(flags := h.flags.(long := true), at := h.at + 1);
      case 'j' => h := h.(flags := h.flags.(long_long := true), at := h.at + 1);
      case 'z' => h := h.(flags := h.flags.(long := true), at := h.at + 1);
      case _ =>
    }
  }

  /** Whatever count is, snprintf returns the length of the untruncated output; a buffer gets as much of it as
      fits before the terminator and keeps all that follows. */
  method Snprintf(buffer: array?<char>, count: Word, fmt: CString, args: Args) returns (n: nat)
    requires buffer != null ==> count <= buffer.Length
    requires Formatted(fmt, args, 0, 0).Some?
    modifies buffer
    ensures n == |Formatted(fmt, args, 0, 0).value|
    ensures buffer != null && count > 0 ==>
              var k := Min(n, count - 1);
              && buffer[..k] == Formatted(fmt, args, 0, 0).value[..k] && buffer[k] == '\0'
              && buffer[k + 1..] == old(buffer[..])[k + 1..]
    ensures buffer != null && count == 0 ==> buffer[..] == old(buffer[..])
  {
    hide Formatted;
    var out := new Output(buffer, count);
    n := out.Vsnprintf(fmt, args);
  }

  lemma DigitsStart(s: seq<char>, text: seq<char>)
    ensures s[..0] + text == text
  {
  }

  /** Pushing one digit. */
  lemma LowDigitsStep(written: seq<char>, v: nat, base: nat, upper: bool, room: nat, digit: int, rest: int)
    requires 2 <= base <= 36 && room > 0 && digit == v % base && rest == v / base
    ensures 0 <= digit < base && 0 <= rest
    ensures written + LowDigits(v, base, upper, room) ==
            written + [DigitChar(digit, upper)] +
            (if rest != 0 && room > 1 then LowDigits(rest, base, upper, room - 1) else [])
  {
    hide DigitChar;
    DivMod(v, base);
    var c, tail := DigitChar(v % base, upper), if v >= base then LowDigits(v / base, base, upper, room - 1) else [];
    assert v / base == 0 ==> v == v % base;
    Regroup(written, [c], tail);
  }

  lemma ReverseOfNothing(s: seq<char>)
    requires s == []
    ensures Reverse(s) == []
  {
  }

  lemma ReverseOfFirst(s: seq<char>, c: char, rest: seq<char>)
    requires s == [c] + rest
    ensures Reverse(s) == Reverse(rest) + [c]
  {
  }

  lemma ArgBounds(c: char, f: Flags, args: Args, used: nat)
    ensures -0x8000_0000_0000_0000 <= IntegerArg(c, f, args, used).0 < 0x1_0000_0000_0000_0000
    ensures c == 'u' ==> IntegerArg(c, f, args, used).0 >= 0
  {
  }

  /** A decimal conversion prints the argument it takes, whatever the flags, width and precision, exactly when
      the argument is not negative or the zeros asked for leave room for the sign. */
  lemma DecimalReads(c: char, args: Args, h: Head)
    requires c in {'d', 'i', 'u'}
    ensures var f := IntegerFlags(c, h.flags);
            var v := IntegerArg(c, f, args, h.used).0;
            ReadInt(Converted(c, args, h).0) == v <==>
            v >= 0 || f.left || (h.prec < BUFFER_SIZE && (!f.zeropad || h.width <= BUFFER_SIZE))
  {
    hide NumberText, ReadInt, IntegerArg;
    var f := IntegerFlags(c, h.flags);
    ArgBounds(c, f, args, h.used);
    var v := IntegerArg(c, f, args, h.used).0;
    NumberReads(if v < 0 then -v else v, v < 0, h.prec, h.width, f);
  }

  lemma BinaryArg(args: Args, f: Flags, used: nat)
    requires !f.long_long
    ensures 0 <= IntegerArg('b', f, args, used).0 < 0x1_0000_0000
  {
  }
}
