/** The growable buffer behind every word: the w_* primitives. */
module WordBuffer {
  import opened CStrings
  import opened Seqs

  const CHUNK: nat := 100

  /** A buffer seen from outside: its word (or NULL) and the room it has. */
  datatype Shape = Holding(word: Option<string>, room: nat)

  const EMPTY: Shape := Holding(None, 0)

  datatype Append = AddChar(ch: char) | AddMem(mem: string)

  function Added(op: Append): string {
    match op
    case AddChar(ch) => [ch]
    case AddMem(mem) => mem
  }

  /** The growth rule: a chunk for one character, at least twice the string for a string. */
  function After(b: Shape, op: Append): Shape {
    var len := |Text(b.word)|;
    match op
    case AddChar(ch) =>
      Holding(Some(Text(b.word) + [ch]), if len == b.room then b.room + CHUNK else b.room)
    case AddMem(mem) =>
      var room := if len + |mem| <= b.room then b.room
                  else if 2 * |mem| > CHUNK then b.room + 2 * |mem| else b.room + CHUNK;
      Holding(if room == 0 then None else Some(Text(b.word) + mem), room)
  }

  function Run(b: Shape, ops: seq<Append>): Shape
    decreases ops
  {
    if ops == [] then b else Run(After(b, ops[0]), ops[1..])
  }

  function Concatenation(ops: seq<Append>): string {
    if ops == [] then "" else Added(ops[0]) + Concatenation(ops[1..])
  }

  lemma AfterAppends(b: Shape, op: Append)
    requires |Text(b.word)| <= b.room <= 3 * |Text(b.word)| + CHUNK
    requires b.word == None <==> b.room == 0
    ensures var next := After(b, op);
            && Text(next.word) == Text(b.word) + Added(op)
            && |Text(next.word)| <= next.room <= 3 * |Text(next.word)| + CHUNK
            && (next.word == None <==> next.room == 0)
            && (next.word == None <==> b.word == None && Added(op) == "")
  {
  }

  /** Any sequence of appends leaves the concatenation of what was added, in room
      that holds it and never exceeds three times it plus one chunk. */
  lemma {:induction false} RunAppends(b: Shape, ops: seq<Append>)
    requires |Text(b.word)| <= b.room <= 3 * |Text(b.word)| + CHUNK
    requires b.word == None <==> b.room == 0
    ensures var end := Run(b, ops);
            && Text(end.word) == Text(b.word) + Concatenation(ops)
            && |Text(end.word)| <= end.room <= 3 * |Text(end.word)| + CHUNK
            && (end.word == None <==> b.word == None && Concatenation(ops) == "")
    decreases ops
  {
    if ops != [] {
      AfterAppends(b, ops[0]);
      RunAppends(After(b, ops[0]), ops[1..]);
      Associative(Text(b.word), Added(ops[0]), Concatenation(ops[1..]));
    }
  }

  class Buffer {
    var data: array?<char>
    var actlen: nat
    var maxlen: nat

    /** NULL has no room; anything else has room for maxlen bytes and the
        terminator, which stands right after the contents. */
    ghost predicate Valid()
      reads this, data
    {
      if data == null then actlen == maxlen == 0
      else data.Length == 1 + maxlen && actlen <= maxlen && maxlen != 0 && data[actlen] == NUL
    }

    /** What callers see (NULL or the bytes before the terminator), and the room. */
    ghost function Shape(): Shape
      requires Valid()
      reads this, data
    {
      Holding(if data == null then None else Some(data[..actlen]), maxlen)
    }

    constructor NewWord()
      ensures Valid() && Shape() == EMPTY
    {
      data, actlen, maxlen := null, 0, 0;
    }

    method Realloc(size: nat)
      requires Valid() && size > maxlen
      modifies this`data
      ensures data != null && fresh(data) && data.Length == 1 + size
      ensures data[..actlen] == (if old(data) == null then [] else old(data[..actlen]))
    {
      var bigger := new char[1 + size];
      if data != null {
        ghost var here := data;
        for i := 0 to actlen
          invariant data == here && data[..] == old(data[..])
          invariant bigger[..i] == data[..i]
        {
          bigger[i] := data[i];
        }
      }
      data := bigger;
    }

    method Mempcpy(str: string)
      requires data != null && actlen + |str| < data.Length
      modifies data
      ensures data[..actlen + |str|] == old(data[..actlen]) + str
    {
      ghost var before := data[..actlen];
      for i := 0 to |str|
        invariant data[..actlen + i] == before + str[..i]
      {
        data[actlen + i] := str[i];
        assert data[..actlen + i + 1] == data[..actlen + i] + [str[i]];
      }
    }

    method AddCharacter(ch: char)
      requires Valid()
      modifies this, data
      ensures Valid()
      ensures data == old(data) || fresh(data)
      ensures Shape() == After(old(Shape()), AddChar(ch))
      ensures maxlen == if old(actlen) == old(maxlen) then old(maxlen) + 100 else old(maxlen)
    {
      ghost var before := Text(Shape().word);
      if actlen == maxlen {
        Realloc(maxlen + CHUNK);
        maxlen := maxlen + CHUNK;
      }
      assert data[..actlen] == before;
      data[actlen] := ch;
      actlen := actlen + 1;
      data[actlen] := NUL;
      assert data[..actlen] == data[..actlen - 1] + [ch];
    }

    method AddMemory(str: string)
      requires Valid()
      modifies this, data
      ensures Valid()
      ensures data == old(data) || fresh(data)
      ensures Shape() == After(old(Shape()), AddMem(str))
      ensures old(actlen) + |str| <= old(maxlen) ==> maxlen == old(maxlen)
      ensures old(actlen) + |str| > old(maxlen) ==>
                maxlen == old(maxlen) + (if 2 * |str| > 100 then 2 * |str| else 100)
    {
      ghost var before := Text(Shape().word);
      if actlen + |str| > maxlen {
        var room := maxlen + (if 2 * |str| > CHUNK then 2 * |str| else CHUNK);
        Realloc(room);
        maxlen := room;
      }
      if data != null {
        assert data[..actlen] == before;
        Mempcpy(str);
        actlen := actlen + |str|;
        data[actlen] := NUL;
        assert data[..actlen] == before + str;
      }
    }

    /** w_addstr measures its argument up to the terminating NUL. */
    method AddString(str: string)
      requires Valid() && NulFree(str)
      modifies this, data
      ensures Valid()
      ensures data == old(data) || fresh(data)
      ensures Shape() == After(old(Shape()), AddMem(str))
    {
      AddMemory(str);
    }
  }
}
