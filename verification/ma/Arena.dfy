/**
 * The allocator as a state machine on values: what MA_allocate_heap, MA_free_heap,
 * MA_free_heap_piece, MA_push_stack, MA_pop_stack and MA_chop_stack do to the heap pointer,
 * the stack pointer and the three lists of blocks. The class in Allocator.dfy is proved against it.
 */
module Arena {
  import opened Options
  import opened Arithmetic
  import opened Placement

  /** A stretch of memory: all that matters of a block on the free list. */
  datatype Piece = Piece(addr: nat, nbytes: nat) {
    function End(): nat { addr + nbytes }
  }

  /** A block in use, as its AD describes it. */
  datatype Block = Block(addr: nat, nbytes: nat, dtype: nat, nelem: nat, client: int) {
    function End(): nat { addr + nbytes }
    function Foot(): Piece { Piece(addr, nbytes) }
  }

  /** ma_segment, ma_partition, ma_eos, ma_hp, ma_sp, and the lists ma_hfree, ma_hused and ma_sused. */
  datatype State = State(
    segment: nat, partition: nat, eos: nat, hp: nat, sp: nat,
    free: seq<Piece>, used: seq<Block>, stack: seq<Block>)

  // ---------- lists ----------

  /** Index of the first free piece that can hold the request, or the length of the list. */
  function FirstFit(lay: Layout, d: nat, n: nat, free: seq<Piece>): (i: nat)
    requires lay.Has(d)
    ensures i <= |free|
    ensures forall j :: 0 <= j < i ==> free[j].nbytes < BytesAfter(lay, d, n, free[j].addr)
    ensures i < |free| ==> BytesAfter(lay, d, n, free[i].addr) <= free[i].nbytes
  {
    if free == [] then 0
    else if BytesAfter(lay, d, n, free[0].addr) <= free[0].nbytes then 0
    else 1 + FirstFit(lay, d, n, free[1..])
  }

  function InsertOrdered(p: Piece, free: seq<Piece>): seq<Piece> {
    if free == [] then [p]
    else if p.addr < free[0].addr then [p] + free
    else [free[0]] + InsertOrdered(p, free[1..])
  }

  function Coalesce(free: seq<Piece>): seq<Piece>
    decreases |free|
  {
    if |free| < 2 then free
    else if free[0].End() == free[1].addr then
      Coalesce([Piece(free[0].addr, free[0].nbytes + free[1].nbytes)] + free[2..])
    else
      [free[0]] + Coalesce(free[1..])
  }

  /** The pieces that do not lie above addr. */
  function UpTo(free: seq<Piece>, addr: nat): seq<Piece> {
    if free == [] then []
    else if free[0].addr > addr then UpTo(free[1..], addr)
    else [free[0]] + UpTo(free[1..], addr)
  }

  /** The stack blocks strictly above addr. */
  function Above(stack: seq<Block>, addr: nat): seq<Block> {
    if stack == [] then []
    else if stack[0].addr <= addr then Above(stack[1..], addr)
    else [stack[0]] + Above(stack[1..], addr)
  }

  /** The block with the highest address. */
  function Rightmost(used: seq<Block>): (m: Block)
    requires used != []
    ensures m in used && forall b :: b in used ==> b.addr <= m.addr
  {
    if |used| == 1 then used[0]
    else
      var m := Rightmost(used[..|used| - 1]);
      var b := used[|used| - 1];
      if b.addr > m.addr then b else m
  }

  predicate HasBlock(blocks: seq<Block>, addr: nat) {
    exists i :: 0 <= i < |blocks| && blocks[i].addr == addr
  }

  /** Position of the first block at addr. */
  function IndexOf(blocks: seq<Block>, addr: nat): (i: nat)
    requires HasBlock(blocks, addr)
    ensures i < |blocks| && blocks[i].addr == addr
    ensures forall j :: 0 <= j < i ==> blocks[j].addr != addr
  {
    if blocks[0].addr == addr then 0
    else
      assert HasBlock(blocks[1..], addr) by {
        var j :| 0 <= j < |blocks| && blocks[j].addr == addr;
        assert blocks[1..][j - 1].addr == addr;
      }
      1 + IndexOf(blocks[1..], addr)
  }

  function RemoveAt<T>(s: seq<T>, i: nat): seq<T>
    requires i < |s|
  {
    s[..i] + s[i + 1..]
  }

  // ---------- operations ----------

  /** block_split: how much of the piece is taken, and the remainder if it is worth a block. */
  function Carve(p: Piece, need: nat): (r: (nat, seq<Piece>))
    requires need <= p.nbytes
  {
    if p.nbytes - need >= MINBLOCKSIZE then (need, [Piece(p.addr + need, p.nbytes - need)])
    else (p.nbytes, [])
  }

  /** The length of a block for n elements of datatype d at addr. */
  function NeedAfter(lay: Layout, d: nat, n: nat, addr: nat): (r: nat)
    requires lay.Valid() && lay.Has(d)
    ensures r == BytesAfter(lay, d, n, addr)
  {
    BytesAfterLower(lay, d, n, addr);
    MulMonotone(0, n, lay.size[d]);
    BytesAfter(lay, d, n, addr)
  }

  /** The length of a block for n elements of datatype d that ends at addr. */
  function NeedBefore(lay: Layout, d: nat, n: nat, addr: nat): (r: nat)
    requires lay.Valid() && lay.Has(d)
    ensures r == BytesBefore(lay, d, n, addr)
  {
    BytesBeforePositive(lay, d, n, addr);
    MulMonotone(0, n, lay.size[d]);
    BytesBefore(lay, d, n, addr)
  }

  function Max(a: nat, b: nat): nat {
    if a < b then b else a
  }

  /** MA_allocate_heap: first fit, else grow the heap towards the stack, else fail. */
  function AllocateHeap(lay: Layout, s: State, d: nat, n: nat): Option<(State, Block)>
    requires lay.Valid() && lay.Has(d)
  {
    var i := FirstFit(lay, d, n, s.free);
    if i < |s.free| then
      var p := s.free[i];
      var (taken, rest) := Carve(p, NeedAfter(lay, d, n, p.addr));
      var b := Block(p.addr, taken, d, n, ClientAfter(lay, d, p.addr));
      Some((s.(free := s.free[..i] + rest + s.free[i + 1..], used := [b] + s.used, hp := Max(s.hp, b.End())), b))
    else
      var need := NeedAfter(lay, d, n, s.hp);
      if s.hp + need > s.sp then None
      else
        var b := Block(s.hp, need, d, n, ClientAfter(lay, d, s.hp));
        Some((s.(used := [b] + s.used, hp := Max(s.hp, b.End())), b))
  }

  /** block_free_heap: cut the heap back to the rightmost used block, keep p if it is below. */
  function Reclaim(s: State, p: Piece): (r: State)
    ensures r.used == s.used
  {
    if s.used == [] then s.(hp := s.segment, free := [])
    else
      var m := Rightmost(s.used);
      var kept := UpTo(s.free, m.addr);
      s.(hp := m.End(), free := if p.addr < m.addr then Coalesce(InsertOrdered(p, kept)) else kept)
  }

  /** MA_free_heap on the used block at addr. */
  function FreeHeap(s: State, addr: nat): State
    requires HasBlock(s.used, addr)
  {
    var i := IndexOf(s.used, addr);
    Reclaim(s.(used := RemoveAt(s.used, i)), s.used[i].Foot())
  }

  /** Shorten the used block at position i to need bytes and kept elements, and reclaim the rest. */
  function Shorten(s: State, i: nat, need: nat, kept: nat): State
    requires i < |s.used| && need <= s.used[i].nbytes
  {
    var cut := s.used[i].(nbytes := need);
    var s1 := Reclaim(s.(used := s.used[i := cut]), Piece(cut.addr + need, s.used[i].nbytes - need));
    s1.(used := s1.used[i := cut.(nelem := kept)])
  }

  /** MA_free_heap_piece: give back the last n elements of the used block at addr. */
  function FreePiece(lay: Layout, s: State, addr: nat, n: nat): State
    requires lay.Valid() && HasBlock(s.used, addr) && lay.Has(s.used[IndexOf(s.used, addr)].dtype)
  {
    var i := IndexOf(s.used, addr);
    var b := s.used[i];
    if n >= b.nelem then FreeHeap(s, addr)
    else
      var need := NeedAfter(lay, b.dtype, b.nelem - n, addr);
      if need < b.nbytes && b.nbytes - need >= MINBLOCKSIZE then Shorten(s, i, need, b.nelem - n)
      else s.(used := s.used[i := b.(nelem := b.nelem - n)])
  }

  /** MA_push_stack: grow the stack towards the heap, or fail. */
  function PushStack(lay: Layout, s: State, d: nat, n: nat): Option<(State, Block)>
    requires lay.Valid() && lay.Has(d)
  {
    var need := NeedBefore(lay, d, n, s.sp);
    if s.sp - s.hp < need then None
    else
      var b := Block(s.sp - need, need, d, n, ClientBefore(lay, d, n, s.sp));
      Some((s.(sp := s.sp - need, stack := [b] + s.stack), b))
  }

  /** MA_pop_stack on the stack block at the stack pointer. */
  function PopStack(s: State): State
    requires HasBlock(s.stack, s.sp)
  {
    var i := IndexOf(s.stack, s.sp);
    s.(stack := RemoveAt(s.stack, i), sp := s.sp + s.stack[i].nbytes)
  }

  /** MA_chop_stack on the stack block at addr: it goes together with every block pushed after it. */
  function ChopStack(s: State, addr: nat): State
    requires HasBlock(s.stack, addr)
  {
    s.(stack := Above(s.stack, addr), sp := s.stack[IndexOf(s.stack, addr)].End())
  }

  /** MA_init on a segment at address segment: sizes in bytes of the two regions are given. */
  function Init(segment: nat, heapBytes: nat, stackBytes: nat): State {
    var eos := segment + heapBytes + stackBytes;
    State(segment, segment + heapBytes, eos, segment, eos, [], [], [])
  }
}
