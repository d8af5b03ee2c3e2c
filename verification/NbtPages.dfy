/**
 * B-tree pages as amcheck sees them: a finite store of blocks, any of which may be corrupt, and the
 * checks every page passes before it is looked at.
 */
module NbtPages {

  const P_NONE: nat := 0
  const INVALID_BLOCK: nat := 0xffff_ffff
  const MAX_ITEMS: nat := 408

  /**
   * An index tuple: its key attributes (fewer than the index has when truncated), its heap TIDs
   * (none for a truncated pivot, several for a posting list), whether some key is null, and the
   * block a pivot points to.
   */
  datatype Item = Item(atts: seq<int>, tids: seq<int>, anyNull: bool, downlink: nat)

  datatype Page = Page(
    prev: nat, next: nat, level: nat,
    leaf: bool, root: bool, meta: bool, deleted: bool, halfDead: bool, incompleteSplit: bool, fullXid: bool,
    items: seq<Item>)
  {
    /** P_IGNORE. */
    predicate Ignorable() { deleted || halfDead }

    predicate Rightmost() { next == P_NONE }

    /** P_FIRSTDATAKEY as an index into items: the high key, if any, comes first. */
    function FirstData(): nat { if Rightmost() then 0 else 1 }

    /** offset_is_negative_infinity. */
    predicate NegativeInfinity(i: nat) { !leaf && i == FirstData() }

    /** The checks of palloc_btree_page on a block other than the metapage. */
    predicate Sane() {
      && !meta
      && ((!deleted || fullXid) ==> (leaf <==> level == 0))
      && |items| <= MAX_ITEMS
      && (!leaf && !deleted ==> |items| > FirstData())
      && (leaf && !deleted && !Rightmost() ==> |items| >= 1)
      && (!leaf ==> !halfDead)
      && (fullXid ==> deleted)
      && !(deleted && halfDead)
    }
  }

  type Store = seq<Page>

  /** The block exists and passes the checks, so reading it raises nothing. */
  predicate Readable(store: Store, b: nat) { 1 <= b < |store| && store[b].Sane() }
}
