/** The shared-secret signature: the hash of a record's id, name and address
    followed by the group key. The hash itself is a parameter, never computed. */
module Auth {
  import opened Model

  const InvalidSignature := "Invalid signature"

  /** The string that is hashed: id, name, address and key, concatenated
      without separators. */
  function Payload(c: Client, key: string): (r: string)
    ensures |r| == |c.id| + |c.name| + |c.addr| + |key|
    ensures r[..|c.id|] == c.id && r[|r| - |key|..] == key
  {
    c.id + c.name + c.addr + key
  }

  /** The X-Signature value a node with this key sends for record c. */
  function Sign(sha256: string -> string, key: string, c: Client): (r: string)
    ensures forall d: Client :: d.id == c.id && d.name == c.name && d.addr == c.addr ==> sha256(Payload(d, key)) == r
  {
    sha256(Payload(c, key))
  }

  /** validate: recompute the hash and compare; a mismatch is the error
      "Invalid signature". */
  function Validate(sha256: string -> string, key: string, signature: string, c: Client): (r: Outcome<string>)
    ensures r == Pass <==> signature == Sign(sha256, key, c)
    ensures r != Pass ==> r == Fail(InvalidSignature)
  {
    var hash := sha256(c.id + c.name + c.addr + key);
    if hash != signature then Fail(InvalidSignature) else Pass
  }

  /** A hash that never collides; a stand-in for "sha256 is collision resistant". */
  ghost predicate Injective(h: string -> string)
  {
    forall s, t :: h(s) == h(t) ==> s == t
  }

  /** A node accepts what a node with the same key and hash signs. */
  lemma SignedIsAccepted(sha256: string -> string, key: string, c: Client)
    ensures Validate(sha256, key, Sign(sha256, key, c), c) == Pass
  {
  }

  /** With a collision-free hash, a signature made with another key is refused. */
  lemma WrongKeyIsRefused(sha256: string -> string, key: string, other: string, c: Client)
    requires Injective(sha256) && key != other
    ensures Validate(sha256, key, Sign(sha256, other, c), c) == Fail(InvalidSignature)
  {
    var p := c.id + c.name + c.addr;
    assert Payload(c, key) == p + key && Payload(c, other) == p + other;
    assert (p + key)[|p|..] == key;
    assert (p + other)[|p|..] == other;
  }

  /** Only id, name and address are signed: the timestamps can be anything,
      so a captured signature stays valid for that identity (no replay
      protection). */
  lemma SignatureIgnoresTimestamps(sha256: string -> string, key: string, c: Client, createdAt: string, updatedAt: string, refreshedAt: Date)
    ensures Sign(sha256, key, c.(createdAt := createdAt, updatedAt := updatedAt, refreshedAt := refreshedAt))
         == Sign(sha256, key, c)
  {
  }

  /** Fields are joined without separators, so two different identities can
      share one signature: id "a" with name "bc", and id "ab" with name "c". */
  lemma {:induction false} FieldBoundariesAreNotSigned(sha256: string -> string, key: string, addr: string, d: Date)
    ensures var c1 := Client("a", "bc", addr, "", "", d);
            var c2 := Client("ab", "c", addr, "", "", d);
            c1 != c2 && Sign(sha256, key, c1) == Sign(sha256, key, c2)
  {
    assert "a" + "bc" == "ab" + "c";
  }
}
