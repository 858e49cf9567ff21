/**
 * The game state of aliens2.py's ShooterGame: the player's position and the
 * three lists `bullets`, `aliens` and `explosions`. Canvas items are modelled
 * by their coordinates and a list holds them in creation order; a key press,
 * a spawn timer firing and an animation timer firing each become one method
 * call, and random.randint becomes a parameter.
 */
module Aliens {
  import opened Options

  const WINDOW_WIDTH: int := 600
  const WINDOW_HEIGHT: int := 400
  const PLAYER_SPEED: int := 10
  const BULLET_SPEED: int := -15
  const ALIEN_SPEED: int := 2

  /** A bullet line from (x, y1) to (x, y2); canvas.coords gives [x, y1, x, y2]. */
  datatype Bullet = Bullet(x: int, y1: int, y2: int)

  /** An alien oval's bounding box; canvas.coords gives [x1, y1, x2, y2]. */
  datatype Alien = Alien(x1: int, y1: int, x2: int, y2: int)

  /** An explosion flash oval's bounding box. */
  datatype Flash = Flash(x1: int, y1: int, x2: int, y2: int)

  function BulletCoords(b: Bullet): seq<int> {
    [b.x, b.y1, b.x, b.y2]
  }

  function AlienCoords(a: Alien): seq<int> {
    [a.x1, a.y1, a.x2, a.y2]
  }

  /** Every alien the game creates is a 40 by 40 box. */
  predicate Box40(a: Alien) {
    a.x2 == a.x1 + 40 && a.y2 == a.y1 + 40
  }

  /** Every bullet the game creates is a vertical line 10 units long, drawn upwards. */
  predicate Line10(b: Bullet) {
    b.y2 == b.y1 - 10
  }

  // ---------------------------------------------------------------------
  // intersects
  // ---------------------------------------------------------------------

  /**
   * intersects(a, b): the first point of item a lies strictly inside the
   * box of item b. The coordinates of a deleted item are empty, and then the
   * answer is false.
   */
  function Intersects(a: seq<int>, b: seq<int>): (r: bool)
    requires a == [] || |a| >= 2
    requires b == [] || |b| == 4
    ensures a == [] || b == [] ==> !r
  {
    if a == [] || b == [] then false
    else b[0] < a[0] < b[2] && b[1] < a[1] < b[3]
  }

  /** The test the collision loop makes between a live bullet and a live alien. */
  predicate Hits(b: Bullet, a: Alien) {
    Intersects(BulletCoords(b), AlienCoords(a))
  }

  /**
   * The test is strict: a bullet tip on the edge of a 40 by 40 alien is no
   * hit, and one anywhere in its interior is.
   */
  lemma HitIsStrictInterior(b: Bullet, a: Alien)
    requires Box40(a)
    ensures Hits(b, a) <==> a.x1 < b.x < a.x1 + 40 && a.y1 < b.y1 < a.y1 + 40
    ensures b.x == a.x1 || b.x == a.x2 || b.y1 == a.y1 || b.y1 == a.y2 ==> !Hits(b, a)
  {
  }

  // ---------------------------------------------------------------------
  // Moving and culling, shared by bullets and aliens
  // ---------------------------------------------------------------------

  /**
   * One pass of a "for item in list[:]: move it; delete it if off screen"
   * loop: every item is stepped, and the stepped items that are kept stay,
   * in order.
   */
  function MoveAndCull<T>(s: seq<T>, step: T -> T, keep: T -> bool): (r: seq<T>)
    ensures |r| <= |s|
    ensures forall x :: x in r ==> keep(x)
  {
    if s == [] then []
    else
      var last := step(s[|s| - 1]);
      MoveAndCull(s[..|s| - 1], step, keep) + (if keep(last) then [last] else [])
  }

  /** An item survives the pass exactly when it is the stepped form of an item that stays on screen. */
  lemma {:induction false} MoveAndCullMembers<T>(s: seq<T>, step: T -> T, keep: T -> bool, x: T)
    ensures x in MoveAndCull(s, step, keep) <==> keep(x) && exists y :: y in s && x == step(y)
  {
    if s != [] {
      var init := s[..|s| - 1];
      MoveAndCullMembers(init, step, keep, x);
      assert s == init + [s[|s| - 1]];
      if keep(x) && x == step(s[|s| - 1]) {
        assert x in MoveAndCull(s, step, keep);
      }
    }
  }

  /** The pass over one more item: its stepped form is appended when kept. */
  lemma MoveAndCullSnoc<T>(s: seq<T>, x: T, step: T -> T, keep: T -> bool)
    ensures MoveAndCull(s + [x], step, keep)
              == MoveAndCull(s, step, keep) + (if keep(step(x)) then [step(x)] else [])
  {
    assert (s + [x])[..|s + [x]| - 1] == s;
  }

  /**
   * One iteration of the pass: the finished part grows by the next item's
   * stepped form when it is kept, and the items still to do lose their head.
   */
  lemma PassNext<T>(snapshot: seq<T>, i: nat, step: T -> T, keep: T -> bool)
    requires i < |snapshot|
    ensures MoveAndCull(snapshot[..i + 1], step, keep)
              == MoveAndCull(snapshot[..i], step, keep)
                 + (if keep(step(snapshot[i])) then [step(snapshot[i])] else [])
    ensures snapshot[i..] == [snapshot[i]] + snapshot[i + 1..]
  {
    assert snapshot[..i + 1] == snapshot[..i] + [snapshot[i]];
    MoveAndCullSnoc(snapshot[..i], snapshot[i], step, keep);
  }

  /**
   * One iteration of the pass on a list that holds the finished part
   * followed by the items still to do: the next item is moved in place at
   * pos, and deleting it there when it is not kept leaves the finished part
   * one item longer.
   */
  lemma PassStep<T>(snapshot: seq<T>, i: nat, current: seq<T>, pos: nat, step: T -> T, keep: T -> bool)
    requires i < |snapshot|
    requires pos == |MoveAndCull(snapshot[..i], step, keep)|
    requires current == MoveAndCull(snapshot[..i], step, keep) + snapshot[i..]
    ensures pos < |current|
    ensures keep(step(snapshot[i])) ==>
              pos + 1 == |MoveAndCull(snapshot[..i + 1], step, keep)| &&
              current[pos := step(snapshot[i])] == MoveAndCull(snapshot[..i + 1], step, keep) + snapshot[i + 1..]
    ensures !keep(step(snapshot[i])) ==>
              pos == |MoveAndCull(snapshot[..i + 1], step, keep)| &&
              current[pos := step(snapshot[i])][..pos] + current[pos := step(snapshot[i])][pos + 1..]
                == MoveAndCull(snapshot[..i + 1], step, keep) + snapshot[i + 1..]
  {
    var done, moved, rest := MoveAndCull(snapshot[..i], step, keep), step(snapshot[i]), snapshot[i + 1..];
    PassNext(snapshot, i, step, keep);
    ReplaceThenDelete(done, snapshot[i], moved, rest);
    assert current == done + [snapshot[i]] + rest;
  }

  /** Overwriting the item after a prefix, then deleting it, leaves the prefix and the rest. */
  lemma ReplaceThenDelete<T>(done: seq<T>, x: T, y: T, rest: seq<T>)
    ensures (done + [x] + rest)[|done| := y] == done + [y] + rest
    ensures (done + [y] + rest)[..|done|] + (done + [y] + rest)[|done| + 1..] == done + rest
  {
    var t := done + [y] + rest;
    assert t[..|done|] == done;
    assert t[|done| + 1..] == rest;
  }

  /** The pass works item by item, so the survivors keep their relative order. */
  lemma {:induction false} MoveAndCullAppend<T>(a: seq<T>, b: seq<T>, step: T -> T, keep: T -> bool)
    ensures MoveAndCull(a + b, step, keep) == MoveAndCull(a, step, keep) + MoveAndCull(b, step, keep)
    decreases |b|
  {
    if b == [] {
      assert a + b == a;
    } else {
      var b' := b[..|b| - 1];
      assert (a + b)[..|a + b| - 1] == a + b';
      MoveAndCullAppend(a, b', step, keep);
    }
  }

  /** A bullet after one tick: both endpoints BULLET_SPEED higher up. */
  function AdvanceBullet(b: Bullet): Bullet {
    Bullet(b.x, b.y1 + BULLET_SPEED, b.y2 + BULLET_SPEED)
  }

  /** A bullet is kept while its first point is not above the top edge. */
  predicate BulletOnScreen(b: Bullet) {
    b.y1 >= 0
  }

  /** An alien after one tick: ALIEN_SPEED further down. */
  function AdvanceAlien(a: Alien): Alien {
    Alien(a.x1, a.y1 + ALIEN_SPEED, a.x2, a.y2 + ALIEN_SPEED)
  }

  /** An alien is kept while its bottom edge is not below the window. */
  predicate AlienOnScreen(a: Alien) {
    a.y2 <= WINDOW_HEIGHT
  }

  /**
   * The bullet pass: a bullet survives iff it is an old bullet moved up by
   * exactly 15 whose first point is at y >= 0; the survivors are well-formed.
   */
  lemma BulletPass(bs: seq<Bullet>, b: Bullet)
    ensures b in MoveAndCull(bs, AdvanceBullet, BulletOnScreen) <==>
              b.y1 >= 0 && Bullet(b.x, b.y1 + 15, b.y2 + 15) in bs
  {
    MoveAndCullMembers(bs, AdvanceBullet, BulletOnScreen, b);
    if Bullet(b.x, b.y1 + 15, b.y2 + 15) in bs {
      assert b == AdvanceBullet(Bullet(b.x, b.y1 + 15, b.y2 + 15));
    }
  }

  /**
   * The alien pass: an alien survives iff it is an old alien moved down by
   * exactly 2 whose bottom edge is at y <= 400.
   */
  lemma AlienPass(aliens: seq<Alien>, a: Alien)
    ensures a in MoveAndCull(aliens, AdvanceAlien, AlienOnScreen) <==>
              a.y2 <= 400 && Alien(a.x1, a.y1 - 2, a.x2, a.y2 - 2) in aliens
  {
    MoveAndCullMembers(aliens, AdvanceAlien, AlienOnScreen, a);
    if Alien(a.x1, a.y1 - 2, a.x2, a.y2 - 2) in aliens {
      assert a == AdvanceAlien(Alien(a.x1, a.y1 - 2, a.x2, a.y2 - 2));
    }
  }

  // ---------------------------------------------------------------------
  // Collision resolution
  // ---------------------------------------------------------------------

  /** The position of the first alien in the list that the bullet hits. */
  function FirstHit(b: Bullet, aliens: seq<Alien>): (r: Option<nat>)
    ensures r.Some? ==> r.value < |aliens| && Hits(b, aliens[r.value])
  {
    if aliens == [] then None
    else if Hits(b, aliens[0]) then Some(0)
    else match FirstHit(b, aliens[1..])
      case None => None
      case Some(j) => Some(j + 1)
  }

  /** FirstHit finds the first hit: no alien before it is hit, and None means no alien is hit at all. */
  lemma {:induction false} FirstHitIsFirst(b: Bullet, aliens: seq<Alien>)
    ensures FirstHit(b, aliens).Some? ==> forall j :: 0 <= j < FirstHit(b, aliens).value ==> !Hits(b, aliens[j])
    ensures FirstHit(b, aliens).None? ==> forall j :: 0 <= j < |aliens| ==> !Hits(b, aliens[j])
  {
    if aliens != [] && !Hits(b, aliens[0]) {
      FirstHitIsFirst(b, aliens[1..]);
      assert forall j :: 0 < j < |aliens| ==> aliens[j] == aliens[1..][j - 1];
    }
  }

  /** Conversely, an alien that is hit with no hit before it is the one FirstHit finds. */
  lemma {:induction false} FirstHitAt(b: Bullet, aliens: seq<Alien>, j: nat)
    requires j < |aliens| && Hits(b, aliens[j])
    requires forall k :: 0 <= k < j ==> !Hits(b, aliens[k])
    ensures FirstHit(b, aliens) == Some(j)
  {
    if j > 0 {
      assert !Hits(b, aliens[0]);
      assert forall k :: 0 <= k < j - 1 ==> aliens[1..][k] == aliens[k + 1];
      FirstHitAt(b, aliens[1..], j - 1);
    }
  }

  function RemoveAt<T>(s: seq<T>, j: nat): seq<T>
    requires j < |s|
  {
    s[..j] + s[j + 1..]
  }

  /** show_explosion(x, y) at the centre of an alien's box. */
  function Explosion(a: Alien): Flash {
    var x, y := (a.x1 + a.x2) / 2, (a.y1 + a.y2) / 2;
    Flash(x - 10, y - 10, x + 10, y + 10)
  }

  /**
   * The source divides with `/`, a float division; for the 40-wide aliens
   * the game creates it is exact, so the flash is a 20 by 20 box with
   * exactly the alien's centre.
   */
  lemma ExplosionCentred(a: Alien)
    requires Box40(a)
    ensures Explosion(a).x1 + Explosion(a).x2 == a.x1 + a.x2
    ensures Explosion(a).y1 + Explosion(a).y2 == a.y1 + a.y2
    ensures Explosion(a).x2 - Explosion(a).x1 == 20 && Explosion(a).y2 - Explosion(a).y1 == 20
  {
  }

  /** What the collision pass leaves: the surviving bullets and aliens and the flashes shown. */
  datatype Outcome = Outcome(bullets: seq<Bullet>, aliens: seq<Alien>, flashes: seq<Flash>)

  /**
   * The collision pass: bullets in order, each against the aliens still
   * alive; a bullet that hits removes itself and the first alien it hits and
   * shows a flash there. Once deleted it has no coordinates, so it hits
   * nothing else.
   */
  function ResolveHits(bs: seq<Bullet>, aliens: seq<Alien>): (r: Outcome)
    ensures |r.bullets| + |r.flashes| == |bs|
    ensures |r.aliens| + |r.flashes| == |aliens|
    decreases |bs|
  {
    if bs == [] then Outcome([], aliens, [])
    else
      match FirstHit(bs[0], aliens)
      case None =>
        var rest := ResolveHits(bs[1..], aliens);
        assert bs == [bs[0]] + bs[1..];
        Outcome([bs[0]] + rest.bullets, rest.aliens, rest.flashes)
      case Some(j) =>
        var left := RemoveAt(aliens, j);
        var rest := ResolveHits(bs[1..], left);
        assert bs == [bs[0]] + bs[1..];
        assert aliens == aliens[..j] + [aliens[j]] + aliens[j + 1..];
        Outcome(rest.bullets, rest.aliens, [Explosion(aliens[j])] + rest.flashes)
  }

  /** The pass only removes bullets: the survivors are drawn from the bullets it started with. */
  lemma {:induction false} ResolveHitsKeepsBullets(bs: seq<Bullet>, aliens: seq<Alien>)
    ensures multiset(ResolveHits(bs, aliens).bullets) <= multiset(bs)
    decreases |bs|
  {
    if bs != [] {
      ResolveFirst(bs, aliens);
      assert multiset(bs) == multiset([bs[0]]) + multiset(bs[1..]) by {
        assert bs == [bs[0]] + bs[1..];
      }
      match FirstHit(bs[0], aliens)
      case None =>
        var rest := ResolveHits(bs[1..], aliens);
        ResolveHitsKeepsBullets(bs[1..], aliens);
        assert multiset([bs[0]] + rest.bullets) == multiset([bs[0]]) + multiset(rest.bullets);
      case Some(j) =>
        ResolveHitsKeepsBullets(bs[1..], RemoveAt(aliens, j));
    }
  }

  /** Removing one element leaves a sub-multiset. */
  lemma RemoveAtShrinks<T>(s: seq<T>, j: nat)
    requires j < |s|
    ensures multiset(RemoveAt(s, j)) + multiset{s[j]} == multiset(s)
  {
    assert s == s[..j] + [s[j]] + s[j + 1..];
  }

  /** The pass only removes aliens: the survivors are drawn from the aliens it started with. */
  lemma {:induction false} ResolveHitsKeepsAliens(bs: seq<Bullet>, aliens: seq<Alien>)
    ensures multiset(ResolveHits(bs, aliens).aliens) <= multiset(aliens)
    decreases |bs|
  {
    if bs != [] {
      ResolveFirst(bs, aliens);
      match FirstHit(bs[0], aliens)
      case None =>
        ResolveHitsKeepsAliens(bs[1..], aliens);
      case Some(j) =>
        var left := RemoveAt(aliens, j);
        var rest := ResolveHits(bs[1..], left);
        assert ResolveHits(bs, aliens).aliens == rest.aliens;
        ResolveHitsKeepsAliens(bs[1..], left);
        RemoveAtShrinks(aliens, j);
    }
  }

  /** No surviving bullet sits inside a surviving alien: every pending hit was resolved. */
  lemma {:induction false} ResolveHitsComplete(bs: seq<Bullet>, aliens: seq<Alien>)
    ensures var r := ResolveHits(bs, aliens);
            forall b, a :: b in r.bullets && a in r.aliens ==> !Hits(b, a)
    decreases |bs|
  {
    if bs != [] {
      var r := ResolveHits(bs, aliens);
      match FirstHit(bs[0], aliens)
      case None =>
        var rest := ResolveHits(bs[1..], aliens);
        assert r == Outcome([bs[0]] + rest.bullets, rest.aliens, rest.flashes);
        ResolveHitsComplete(bs[1..], aliens);
        ResolveHitsKeepsAliens(bs[1..], aliens);
        FirstHitIsFirst(bs[0], aliens);
        forall a | a in r.aliens ensures !Hits(bs[0], a) {
          assert a in multiset(r.aliens);
          assert a in aliens;
          var k :| 0 <= k < |aliens| && aliens[k] == a;
        }
        forall b, a | b in r.bullets && a in r.aliens ensures !Hits(b, a) {
          if b != bs[0] {
            assert b in rest.bullets;
          }
        }
      case Some(j) =>
        var rest := ResolveHits(bs[1..], RemoveAt(aliens, j));
        assert r.bullets == rest.bullets && r.aliens == rest.aliens;
        ResolveHitsComplete(bs[1..], RemoveAt(aliens, j));
    }
  }

  /** The flash is the one shown at the centre of some alien of the list. */
  predicate ShownFor(f: Flash, aliens: seq<Alien>) {
    exists k :: 0 <= k < |aliens| && f == Explosion(aliens[k])
  }

  /** Every flash shown is at the centre of an alien that was alive when the pass began. */
  lemma {:induction false} ResolveHitsFlashes(bs: seq<Bullet>, aliens: seq<Alien>)
    ensures forall f :: f in ResolveHits(bs, aliens).flashes ==> ShownFor(f, aliens)
    decreases |bs|
  {
    if bs != [] {
      ResolveFirst(bs, aliens);
      match FirstHit(bs[0], aliens)
      case None =>
        ResolveHitsFlashes(bs[1..], aliens);
      case Some(j) =>
        var left := RemoveAt(aliens, j);
        var rest := ResolveHits(bs[1..], left);
        ResolveHitsFlashes(bs[1..], left);
        forall f | f in ResolveHits(bs, aliens).flashes ensures ShownFor(f, aliens) {
          if f == Explosion(aliens[j]) {
            assert f == Explosion(aliens[j]);
          } else {
            assert f in rest.flashes;
            var k :| 0 <= k < |left| && f == Explosion(left[k]);
            var k' := if k < j then k else k + 1;
            assert left[k] == aliens[k'];
          }
        }
    }
  }

  /**
   * The pass on a non-empty list of bullets: the first bullet either misses
   * every alien and stays, or it and exactly the first alien it hits are gone
   * and one flash is shown; the rest of the bullets meet the aliens left.
   */
  lemma ResolveFirst(bs: seq<Bullet>, aliens: seq<Alien>)
    requires bs != []
    ensures FirstHit(bs[0], aliens).None? ==>
              var rest := ResolveHits(bs[1..], aliens);
              ResolveHits(bs, aliens) == Outcome([bs[0]] + rest.bullets, rest.aliens, rest.flashes)
    ensures FirstHit(bs[0], aliens).Some? ==>
              var j := FirstHit(bs[0], aliens).value;
              var rest := ResolveHits(bs[1..], RemoveAt(aliens, j));
              ResolveHits(bs, aliens) == Outcome(rest.bullets, rest.aliens, [Explosion(aliens[j])] + rest.flashes)
  {
  }

  /**
   * A bullet inside none of the aliens survives the pass at the head of the
   * surviving bullets, takes no alien and shows no flash: the rest of the
   * bullets meet the same aliens.
   */
  lemma ResolveMiss(bs: seq<Bullet>, aliens: seq<Alien>)
    requires bs != []
    requires forall j :: 0 <= j < |aliens| ==> !Hits(bs[0], aliens[j])
    ensures var r, rest := ResolveHits(bs, aliens), ResolveHits(bs[1..], aliens);
            r.bullets == [bs[0]] + rest.bullets && r.aliens == rest.aliens && r.flashes == rest.flashes
  {
    ResolveFirst(bs, aliens);
  }

  /**
   * A bullet whose earliest hit is the alien at position j does not survive:
   * exactly that alien is removed, its flash is the first one shown, and the
   * rest of the bullets meet the other aliens in their order.
   */
  lemma ResolveHit(bs: seq<Bullet>, aliens: seq<Alien>, j: nat)
    requires bs != [] && j < |aliens| && Hits(bs[0], aliens[j])
    requires forall k :: 0 <= k < j ==> !Hits(bs[0], aliens[k])
    ensures var r, rest := ResolveHits(bs, aliens), ResolveHits(bs[1..], aliens[..j] + aliens[j + 1..]);
            r.bullets == rest.bullets && r.aliens == rest.aliens && r.flashes == [Explosion(aliens[j])] + rest.flashes
  {
    FirstHitAt(bs[0], aliens, j);
    ResolveFirst(bs, aliens);
  }

  /** Combines the part of the pass already done with the outcome of the rest. */
  function Prepend(kept: seq<Bullet>, shown: seq<Flash>, rest: Outcome): Outcome {
    Outcome(kept + rest.bullets, rest.aliens, shown + rest.flashes)
  }

  /** Moving a flash from the rest of the pass to the part already done. */
  lemma PrependFlash(kept: seq<Bullet>, shown: seq<Flash>, rest: Outcome, f: Flash)
    ensures Prepend(kept, shown + [f], rest)
              == Prepend(kept, shown, Outcome(rest.bullets, rest.aliens, [f] + rest.flashes))
  {
    assert shown + [f] + rest.flashes == shown + ([f] + rest.flashes);
  }

  /** Moving a kept bullet from the rest of the pass to the part already done. */
  lemma PrependKept(kept: seq<Bullet>, shown: seq<Flash>, rest: Outcome, b: Bullet)
    ensures Prepend(kept + [b], shown, rest)
              == Prepend(kept, shown, Outcome([b] + rest.bullets, rest.aliens, rest.flashes))
  {
    assert kept + [b] + rest.bullets == kept + ([b] + rest.bullets);
  }

  /**
   * One round of the collision pass, with the part already done written in
   * front: the bullet at position i either joins the kept bullets, or it and
   * the first alien it hits go and a flash joins the shown ones.
   */
  lemma ResolveStep(snapshot: seq<Bullet>, i: nat, kept: seq<Bullet>, shown: seq<Flash>, before: seq<Alien>)
    requires i < |snapshot|
    ensures RemoveAt(kept + snapshot[i..], |kept|) == kept + snapshot[i + 1..]
    ensures kept + [snapshot[i]] + snapshot[i + 1..] == kept + snapshot[i..]
    ensures FirstHit(snapshot[i], before).None? ==>
              Prepend(kept + [snapshot[i]], shown, ResolveHits(snapshot[i + 1..], before))
                == Prepend(kept, shown, ResolveHits(snapshot[i..], before))
    ensures FirstHit(snapshot[i], before).Some? ==>
              var j := FirstHit(snapshot[i], before).value;
              Prepend(kept, shown + [Explosion(before[j])], ResolveHits(snapshot[i + 1..], RemoveAt(before, j)))
                == Prepend(kept, shown, ResolveHits(snapshot[i..], before))
  {
    var t := kept + snapshot[i..];
    assert t[..|kept|] == kept;
    assert t[|kept| + 1..] == snapshot[i + 1..];
    assert snapshot[i..][1..] == snapshot[i + 1..];
    assert snapshot[i..] == [snapshot[i]] + snapshot[i + 1..];
    ResolveFirst(snapshot[i..], before);
    match FirstHit(snapshot[i], before)
    case None =>
      PrependKept(kept, shown, ResolveHits(snapshot[i + 1..], before), snapshot[i]);
    case Some(j) =>
      PrependFlash(kept, shown, ResolveHits(snapshot[i + 1..], RemoveAt(before, j)), Explosion(before[j]));
  }

  // ---------------------------------------------------------------------
  // The game object
  // ---------------------------------------------------------------------

  class ShooterGame {
    /** The player image's centre, as canvas.coords(self.player) returns it. */
    var playerX: int
    var playerY: int
    var bullets: seq<Bullet>
    var aliens: seq<Alien>
    var explosions: seq<Flash>

    /** Between ticks every item has the shape it was created with and no flash is left. */
    ghost predicate Valid()
      reads this
    {
      (forall b :: b in bullets ==> Line10(b)) &&
      (forall a :: a in aliens ==> Box40(a)) &&
      explosions == []
    }

    /** __init__: the player at the bottom centre, no items yet. */
    constructor ()
      ensures Valid()
      ensures playerX == WINDOW_WIDTH / 2 && playerY == WINDOW_HEIGHT - 40
      ensures bullets == [] && aliens == [] && explosions == []
    {
      playerX, playerY := WINDOW_WIDTH / 2, WINDOW_HEIGHT - 40;
      bullets, aliens, explosions := [], [], [];
    }

    /** move_left: the player shifts PLAYER_SPEED to the left, with no clamping to the window. */
    method MoveLeft()
      modifies this`playerX
      ensures playerX == old(playerX) - PLAYER_SPEED
    {
      playerX := playerX - PLAYER_SPEED;
    }

    /** move_right: the player shifts PLAYER_SPEED to the right, with no clamping to the window. */
    method MoveRight()
      modifies this`playerX
      ensures playerX == old(playerX) + PLAYER_SPEED
    {
      playerX := playerX + PLAYER_SPEED;
    }

    /** shoot: one new bullet above the player, appended after the existing ones. */
    method Shoot()
      requires Valid()
      modifies this`bullets
      ensures Valid()
      ensures bullets == old(bullets) + [Bullet(playerX, playerY - 20, playerY - 30)]
    {
      var x, y := playerX, playerY;
      bullets := bullets + [Bullet(x, y - 20, y - 30)];
    }

    /**
     * spawn_alien with x the value random.randint(30, WINDOW_WIDTH - 30)
     * drew: a 40 by 40 alien at the top, centred on x, appended at the end.
     */
    method SpawnAlien(x: int)
      requires 30 <= x <= WINDOW_WIDTH - 30
      requires Valid()
      modifies this`aliens
      ensures Valid()
      ensures aliens == old(aliens) + [Alien(x - 20, 0, x + 20, 40)]
    {
      aliens := aliens + [Alien(x - 20, 0, x + 20, 40)];
    }

    /** show_explosion: one more flash, a 20 by 20 box centred on (x, y). */
    method ShowExplosion(x: int, y: int)
      modifies this`explosions
      ensures explosions == old(explosions) + [Flash(x - 10, y - 10, x + 10, y + 10)]
    {
      explosions := explosions + [Flash(x - 10, y - 10, x + 10, y + 10)];
    }

    /** The "Move bullets" loop of animate, over a copy of the list. */
    method MoveBullets()
      modifies this`bullets
      ensures bullets == MoveAndCull(old(bullets), AdvanceBullet, BulletOnScreen)
    {
      var snapshot, list := bullets, bullets;
      var i, pos := 0, 0;
      while i < |snapshot|
        invariant 0 <= i <= |snapshot|
        invariant pos == |MoveAndCull(snapshot[..i], AdvanceBullet, BulletOnScreen)|
        invariant list == MoveAndCull(snapshot[..i], AdvanceBullet, BulletOnScreen) + snapshot[i..]
      {
        PassStep(snapshot, i, list, pos, AdvanceBullet, BulletOnScreen);
        var moved := AdvanceBullet(snapshot[i]);
        list := list[pos := moved];
        if moved.y1 < 0 {
          assert !BulletOnScreen(moved);
          list := list[..pos] + list[pos + 1..];
        } else {
          assert BulletOnScreen(moved);
          pos := pos + 1;
        }
        i := i + 1;
      }
      assert snapshot[..i] == snapshot;
      bullets := list;
    }

    /** The "Move aliens" loop of animate, over a copy of the list. */
    method MoveAliens()
      modifies this`aliens
      ensures aliens == MoveAndCull(old(aliens), AdvanceAlien, AlienOnScreen)
    {
      var snapshot, list := aliens, aliens;
      var i, pos := 0, 0;
      while i < |snapshot|
        invariant 0 <= i <= |snapshot|
        invariant pos == |MoveAndCull(snapshot[..i], AdvanceAlien, AlienOnScreen)|
        invariant list == MoveAndCull(snapshot[..i], AdvanceAlien, AlienOnScreen) + snapshot[i..]
      {
        PassStep(snapshot, i, list, pos, AdvanceAlien, AlienOnScreen);
        var moved := AdvanceAlien(snapshot[i]);
        list := list[pos := moved];
        if moved.y2 > WINDOW_HEIGHT {
          assert !AlienOnScreen(moved);
          list := list[..pos] + list[pos + 1..];
        } else {
          assert AlienOnScreen(moved);
          pos := pos + 1;
        }
        i := i + 1;
      }
      assert snapshot[..i] == snapshot;
      aliens := list;
    }

    /**
     * One round of the inner collision loop: the bullet at position pos,
     * compared with a copy of the alien list in order. At the first alien it
     * hits, the bullet and that alien are deleted and a flash is shown; the
     * deleted bullet has no coordinates, so the rest of the round hits
     * nothing.
     */
    method CheckBullet(pos: nat) returns (hit: bool)
      requires pos < |bullets|
      modifies this`bullets, this`aliens, this`explosions
      ensures var first := FirstHit(old(bullets)[pos], old(aliens));
              hit == first.Some? &&
              (hit ==> bullets == RemoveAt(old(bullets), pos) &&
                       aliens == RemoveAt(old(aliens), first.value) &&
                       explosions == old(explosions) + [Explosion(old(aliens)[first.value])]) &&
              (!hit ==> bullets == old(bullets) && aliens == old(aliens) && explosions == old(explosions))
    {
      var bullet := bullets[pos];
      var targets := aliens;
      var alive := true;
      ghost var at: nat := 0;
      var j := 0;
      while j < |targets|
        invariant 0 <= j <= |targets|
        invariant alive ==> bullets == old(bullets) && aliens == targets && explosions == old(explosions)
        invariant alive ==> forall k :: 0 <= k < j ==> !Hits(bullet, targets[k])
        invariant !alive ==> at < j && FirstHit(bullet, targets) == Some(at)
        invariant !alive ==> bullets == RemoveAt(old(bullets), pos) && aliens == RemoveAt(targets, at)
        invariant !alive ==> explosions == old(explosions) + [Explosion(targets[at])]
      {
        var coords := if alive then BulletCoords(bullet) else [];
        if Intersects(coords, AlienCoords(targets[j])) {
          var a := targets[j];
          var x, y := (a.x1 + a.x2) / 2, (a.y1 + a.y2) / 2;
          bullets := bullets[..pos] + bullets[pos + 1..];
          aliens := aliens[..j] + aliens[j + 1..];
          ShowExplosion(x, y);
          FirstHitAt(bullet, targets, j);
          alive, at := false, j;
        }
        j := j + 1;
      }
      hit := !alive;
      FirstHitIsFirst(bullet, targets);
    }

    /**
     * The "Check for collisions" loops of animate: for each bullet of a copy
     * of the list, one round of CheckBullet against the aliens still alive.
     */
    method CheckCollisions()
      modifies this`bullets, this`aliens, this`explosions
      ensures Prepend([], old(explosions), ResolveHits(old(bullets), old(aliens)))
                == Outcome(bullets, aliens, explosions)
    {
      var snapshot := bullets;
      ghost var kept: seq<Bullet> := [];
      var i, pos := 0, 0;
      while i < |snapshot|
        invariant 0 <= i <= |snapshot|
        invariant pos == |kept|
        invariant bullets == kept + snapshot[i..]
        invariant Prepend(kept, explosions, ResolveHits(snapshot[i..], aliens))
                    == Prepend([], old(explosions), ResolveHits(snapshot, old(aliens)))
      {
        ghost var before, shown := aliens, explosions;
        assert bullets[pos] == snapshot[i];
        var hit := CheckBullet(pos);
        if hit {
          assert bullets == kept + snapshot[i + 1..] by {
            ResolveStep(snapshot, i, kept, shown, before);
          }
          assert Prepend(kept, explosions, ResolveHits(snapshot[i + 1..], aliens))
                   == Prepend(kept, shown, ResolveHits(snapshot[i..], before)) by {
            ResolveStep(snapshot, i, kept, shown, before);
          }
        } else {
          assert Prepend(kept + [snapshot[i]], explosions, ResolveHits(snapshot[i + 1..], aliens))
                   == Prepend(kept, shown, ResolveHits(snapshot[i..], before)) by {
            ResolveStep(snapshot, i, kept, shown, before);
          }
          assert bullets == kept + [snapshot[i]] + snapshot[i + 1..] by {
            ResolveStep(snapshot, i, kept, shown, before);
          }
          kept := kept + [snapshot[i]];
          pos := pos + 1;
        }
        i := i + 1;
      }
      assert snapshot[i..] == [];
    }

    /**
     * animate, one timer tick: move the bullets, move the aliens, resolve the
     * hits, then delete every flash. The flashes shown during the tick are
     * returned; the player does not move.
     */
    method Animate() returns (shown: seq<Flash>)
      requires Valid()
      modifies this`bullets, this`aliens, this`explosions
      ensures Valid()
      ensures var r := ResolveHits(MoveAndCull(old(bullets), AdvanceBullet, BulletOnScreen),
                                   MoveAndCull(old(aliens), AdvanceAlien, AlienOnScreen));
              bullets == r.bullets && aliens == r.aliens && shown == r.flashes
      ensures explosions == []
    {
      ghost var bs0, as0 := bullets, aliens;
      MoveBullets();
      MoveAliens();
      ghost var bs1, as1 := bullets, aliens;
      forall b | b in bs1 ensures Line10(b) {
        MoveAndCullMembers(bs0, AdvanceBullet, BulletOnScreen, b);
      }
      forall a | a in as1 ensures Box40(a) {
        MoveAndCullMembers(as0, AdvanceAlien, AlienOnScreen, a);
      }
      ghost var r := ResolveHits(bs1, as1);
      CheckCollisions();
      assert [] + r.bullets == r.bullets && [] + r.flashes == r.flashes;
      assert bullets == r.bullets && aliens == r.aliens && explosions == r.flashes;
      ResolveHitsKeepsBullets(bs1, as1);
      ResolveHitsKeepsAliens(bs1, as1);
      forall b | b in bullets ensures Line10(b) {
        assert b in multiset(bullets);
      }
      forall a | a in aliens ensures Box40(a) {
        assert a in multiset(aliens);
      }
      shown := explosions;
      explosions := [];
    }
  }

  /**
   * After any tick no bullet is above the top edge, no alien is below the
   * bottom edge, and no surviving bullet sits inside a surviving alien.
   */
  lemma TickLeavesNoPendingHit(bs: seq<Bullet>, aliens: seq<Alien>)
    ensures var r := ResolveHits(MoveAndCull(bs, AdvanceBullet, BulletOnScreen),
                                 MoveAndCull(aliens, AdvanceAlien, AlienOnScreen));
            (forall b :: b in r.bullets ==> b.y1 >= 0) &&
            (forall a :: a in r.aliens ==> a.y2 <= WINDOW_HEIGHT) &&
            (forall b, a :: b in r.bullets && a in r.aliens ==> !Hits(b, a))
  {
    var mb := MoveAndCull(bs, AdvanceBullet, BulletOnScreen);
    var ma := MoveAndCull(aliens, AdvanceAlien, AlienOnScreen);
    var r := ResolveHits(mb, ma);
    ResolveHitsKeepsBullets(mb, ma);
    ResolveHitsKeepsAliens(mb, ma);
    forall b | b in r.bullets ensures b.y1 >= 0 {
      assert b in multiset(r.bullets);
      assert b in multiset(mb);
      assert BulletOnScreen(b);
    }
    forall a | a in r.aliens ensures a.y2 <= WINDOW_HEIGHT {
      assert a in multiset(r.aliens);
      assert a in multiset(ma);
      assert AlienOnScreen(a);
    }
    ResolveHitsComplete(mb, ma);
  }
}
