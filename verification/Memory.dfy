/** The words of the managed segment, gathered per chunk address. A word never
    written reads as zero. Addresses are numbers; zero is the null pointer. */
module Memory {

  /** The head word of a chunk: its size and the two in-use bits kept below it. */
  datatype Head = Head(size: nat, cinuse: bool, pinuse: bool)

  type Heads = map<nat, Head>

  function Hd(h: Heads, p: nat): Head {
    if p in h then h[p] else Head(0, false, false)
  }

  /** chunksize(p) */
  function Size(h: Heads, p: nat): nat { Hd(h, p).size }

  /** prev_foot, the word in front of a chunk. */
  function FootAt(f: map<nat, nat>, p: nat): nat { if p in f then f[p] else 0 }

  /** The link words of a free chunk, as laid out in malloc_tree_chunk. */
  datatype Link = Link(fd: nat, bk: nat, child0: nat, child1: nat, parent: nat, index: nat)

  type Links = map<nat, Link>

  function At(m: Links, p: nat): Link {
    if p in m then m[p] else Link(0, 0, 0, 0, 0, 0)
  }

  function SetFd(m: Links, p: nat, v: nat): Links { m[p := At(m, p).(fd := v)] }

  function SetBk(m: Links, p: nat, v: nat): Links { m[p := At(m, p).(bk := v)] }

  function SetChild0(m: Links, p: nat, v: nat): Links { m[p := At(m, p).(child0 := v)] }

  function SetChild1(m: Links, p: nat, v: nat): Links { m[p := At(m, p).(child1 := v)] }

  function SetParent(m: Links, p: nat, v: nat): Links { m[p := At(m, p).(parent := v)] }

  function SetIndex(m: Links, p: nat, v: nat): Links { m[p := At(m, p).(index := v)] }

  /** Two memories agree on a set of addresses. */
  ghost predicate Agree(m: Links, n: Links, s: set<nat>) {
    forall p :: p in s ==> At(m, p) == At(n, p)
  }
}
