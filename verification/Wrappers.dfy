/** The types and predicates the other modules share. */
module Wrappers {

  type byte = b: int | 0 <= b < 256

  datatype Option<+T> = None | Some(value: T)

  /** What an endpoint answers: a body, or the status code of the exception it raises. */
  datatype Response<+T> = Ok(body: T) | HttpError(status: int)

  /** `compare_digest` raises on a text with a character beyond ASCII. */
  predicate IsAscii(text: string): (ascii: bool)
    ensures ascii <==> forall c :: c in text ==> c as int <= 127
  {
    assert text != "" ==> text[0] in text && forall c :: c in text <==> c == text[0] || c in text[1..];
    text == "" || (text[0] as int < 128 && IsAscii(text[1..]))
  }

  /** No element occurs twice. */
  predicate Distinct<T(==)>(s: seq<T>) {
    forall i, j :: 0 <= i < j < |s| ==> s[i] != s[j]
  }

  lemma Assoc<T>(a: seq<T>, b: seq<T>, c: seq<T>)
    ensures a + b + c == a + (b + c)
  {
  }
}
