/** The values that are serialized, and decimal text. */
module Values {
  import opened Wrappers

  datatype Kind = Array | Record

  /** A value of the program. `B` stands for `BigNumber` and `N` for the finite numbers that
      JSON tells apart; the keys of an array are its indices. `Undefined` is what a cast leaves under
      a key that was not there. */
  datatype Value<B, N> =
    | Null
    | Undefined
    | Bool(b: bool)
    | Number(n: N)
    | Text(s: string)
    | BigInt(i: int)
    | BigNumber(bn: B)
    | Container(kind: Kind, entries: seq<Entry<B, N>>)

  datatype Entry<B, N> = Entry(key: string, value: Value<B, N>)

  /** An array's keys are its indices; a record has each key once. */
  predicate ProperKeys<B, N>(kind: Kind, entries: seq<Entry<B, N>>) {
    match kind
    case Array => forall i | 0 <= i < |entries| :: entries[i].key == Print(i)
    case Record => forall i, j | 0 <= i < j < |entries| :: entries[i].key != entries[j].key
  }

  predicate WellFormed<B, N>(v: Value<B, N>) {
    match v
    case Undefined => false
    case Container(kind, entries) =>
      ProperKeys(kind, entries) && forall i | 0 <= i < |entries| :: WellFormed(entries[i].value)
    case _ => true
  }

  /** What JSON can carry. */
  predicate IsJson<B, N>(v: Value<B, N>) {
    match v
    case Undefined => false
    case BigInt(_) => false
    case BigNumber(_) => false
    case Container(kind, entries) =>
      ProperKeys(kind, entries) && forall i | 0 <= i < |entries| :: IsJson(entries[i].value)
    case _ => true
  }

  // ----- decimal text -----

  function Digit(d: nat): char
    requires d < 10
  {
    '0' + d as char
  }

  function Digits(n: nat): (r: string)
    ensures r != []
  {
    if n < 10 then [Digit(n)] else Digits(n / 10) + [Digit(n % 10)]
  }

  function Print(i: int): string {
    if i < 0 then "-" + Digits(-i) else Digits(i)
  }

  function ReadDigits(s: string): Option<nat> {
    if s == [] then Some(0)
    else
      var last := s[|s| - 1];
      if !('0' <= last <= '9') then None
      else
        match ReadDigits(s[..|s| - 1])
        case Some(n) => Some(10 * n + (last - '0') as nat)
        case None => None
  }

  /** `BigInt` of decimal text: an optional sign and digits, or nothing at all; white space and
      other bases are not part of this model. */
  function ReadInt(s: string): Option<int> {
    if s == [] then Some(0)
    else if s[0] == '-' || s[0] == '+' then
      match ReadDigits(s[1..])
      case Some(n) => if |s| == 1 then None else var i: int := n; Some(if s[0] == '-' then -i else i)
      case None => None
    else
      match ReadDigits(s)
      case Some(n) => Some(n)
      case None => None
  }

  lemma {:induction false} DigitsRead(n: nat)
    ensures ReadDigits(Digits(n)) == Some(n)
    ensures '0' <= Digits(n)[0] <= '9'
  {
    if n < 10 {
      assert Digits(n)[..0] == [];
    } else {
      DigitsRead(n / 10);
      assert Digits(n)[..|Digits(n)| - 1] == Digits(n / 10);
    }
  }

  /** The last digit is the remainder by ten, after the text of the quotient; a minus sign comes first. */
  lemma PrintInNumbers(n: int)
    requires n >= 0
    ensures n < 10 ==> Print(n) == ["0123456789"[n]]
    ensures n >= 10 ==> Print(n) == Print(n / 10) + ["0123456789"[n % 10]]
    ensures n > 0 ==> Print(-n) == "-" + Print(n)
  {
  }

  /** Printing an integer and reading it back. */
  lemma PrintRead(i: int)
    ensures ReadInt(Print(i)) == Some(i)
  {
    if i < 0 {
      DigitsRead(-i);
      assert Print(i)[1..] == Digits(-i);
    } else {
      DigitsRead(i);
    }
  }
}
