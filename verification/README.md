# heat2D, MPI + OpenMP: a Dafny model of its index logic

`mpibackup10.c` solves the 2D heat equation on an `NXPROB x NYPROB` field
(256 x 320, `STEPS` = 100). It splits the field into blocks, one per MPI
worker, and gives each worker two haloed buffers, `local[0]` and `local[1]`,
of `(rows+2) x (columns+2)` floats. The program runs in four phases:

1. The master rejects a prime worker count and a field whose cell count the
   worker count does not divide.
2. The master searches for a block-grid shape `xdim x ydim` and computes
   every worker's four neighbours.
3. `MPI_Scatterv` distributes the field. It uses a resized subarray type and
   a displacement table.
4. Each time step exchanges the halo lines of the current buffer, then runs
   an interior pass (`updateInternal`) and a border pass (`updateExternal`)
   into the other buffer. At the end, `MPI_Gatherv` collects buffer
   `STEPS % 2`.

The model covers this index logic. Each module follows one part of the
program:

- `Layout` (layout.dfy) covers row-major offsets and the row pointers of
  `malloc2darr`.
- `Primality` (primality.dfy) is `isPrime`.
- `Partition` (partition.dfy) covers the factor-pair search, the block shape,
  the neighbour table and the launch checks.
- `Distribute` (distribute.dfy) covers the displacement loop, the
  scatter/gather placement and the drift described under Findings.
- `Halo` (halo.dfy) covers the eight transfer regions and the exchange.
- `Stencil` (stencil.dfy) covers the cells each pass writes and the
  five-point update.
- `Simulation` (simulation.dfy) covers buffer parity, the time loop and the
  end-to-end theorem.

`Simulation.Simulate` models the whole run. It takes the row width of u and
the scatter/gather placement as parameters, and requires only that every
send item stays inside u (`Distribute.Fits`). The blocks need not tile the
field. `Simulation.Heat2D` is the program as built, with the program's own
displacements (`Distribute.AsWritten`). It is defined for every accepted
launch whose block sizes are sound (`Simulation.Runs`), including
launches that leave remainder rows, such as forty workers
(`Simulation.FortyWorkersRun`). Where the program's send items overlap,
the gather is erroneous under MPI, and there `Heat2D` is the model's
rank-order choice rather than the program's defined result (see
"Left out").

The end-to-end theorem is `Simulation.SimulateIsSerial`. Assume four things:

- the field is zero on its domain edge;
- the blocks tile the field exactly, with block sizes the passes handle;
- the placement puts every block at its field position
  (`Distribute.PlacesBlocks`);
- the neighbour table follows the Cartesian rule.

The program's own displacements meet the placement condition on every
exact tiling (`Distribute.AsWrittenPlacesBlocks`). The corrected
displacements of Findings (`Distribute.Corrected`) meet it on every tiling
(`Distribute.CorrectedPlacesBlocks`).

Then the field gathered after `n` iterations is, cell for cell, the serial
heat2D update applied `n` times. `Simulation.ProgramIsSerial` instantiates
this for the program as built: inidat's field, `PARMS`, the master's
neighbour table and `STEPS`. `Simulation.FourWorkersExact` shows that four
workers meet its precondition.

Only buffer 0 receives the scatter. Buffer 1 starts all zero (lines
213-217) and its domain edge is never written, so from step 2 on the border
pass reads zeros from buffer 1's edge. A field that is not zero on its edge
is therefore not preserved. `Simulation.UniformFieldNotKept` shows this: a
lone 3 x 3 field of 5.0 has 3.0 at its centre after two iterations, where
the serial update keeps 5.0. The header comment (lines 6-8) describes a
field that is zero at the boundaries. For such fields, inidat's among them,
the program and the serial update agree.

## Model

| member | source | states |
|---|---|---|
| Layout.CellOf | mpibackup10.c:603-621 | splitting a flat offset by the row width gives a column inside the row and a row, which recombine to the offset |
| Layout.CellOfOffset | mpibackup10.c:603-621 | an element's flat offset names that element and no other, so splitting it recovers (row, column) |
| Layout.OffsetInjective | mpibackup10.c:603-621 | two elements of a row-major array share a flat offset only if they are the same element |
| Layout.OffsetInRange | mpibackup10.c:603-621 | every element of an n x m array lies inside the n*m-float allocation |
| Layout.RowStarts | mpibackup10.c:617-618 | malloc2darr sets n row pointers, and row i starts i*m floats into the allocation |
| Layout.RowStartsTile | mpibackup10.c:603-621 | the rows tile the allocation: every float belongs to the row whose start is at most its offset and less than m before it |
| Primality.IsPrime | mpibackup10.c:589-601 | for n >= 1, isPrime answers true exactly for primes; for n <= 0 it answers true exactly for odd n |
| Primality.TrialDivision | mpibackup10.c:597-600 | the loop from divisor i on finds nothing exactly when no odd d >= i with d*d <= n divides n |
| Primality.OddPrimeByTrial | mpibackup10.c:595-600 | an odd n >= 3 is prime exactly when no odd d >= 3 with d*d <= n divides it, which is what the loop checks |
| Primality.EvenNotPrime | mpibackup10.c:595-596 | an even number above 2 is not prime |
| Partition.ISqrt | mpibackup10.c:120 | the scan starts from floor(sqrt(W)) + 1: r*r <= W < (r+1)*(r+1) |
| Partition.ScanDivisor | mpibackup10.c:120-126 | the downward scan stops at a divisor of W, and no larger number up to the start divides W |
| Partition.FactorPair | mpibackup10.c:120-133 | xdim*ydim == W; one side is the largest divisor not above floor(sqrt(W))+1; when NY > NX the grid is swapped so that xdim <= ydim |
| Partition.CompositeFactorPair | mpibackup10.c:117-133 | for a composite W both sides of the block grid are at least 2 |
| Partition.BlockRows | mpibackup10.c:138 | rows is the truncating quotient: xdim*rows <= NX < xdim*(rows+1) |
| Partition.BlockColumns | mpibackup10.c:139 | columns is the truncating quotient: ydim*columns <= NY < ydim*(columns+1) |
| Partition.WorkerNeighbors | mpibackup10.c:143-164 | the master's neighbour rule for ranks 1 .. W-1, with no contract of its own; `Partition.WorkerNeighborsCartesian` states that it is the non-periodic Cartesian rule |
| Partition.WorkerNeighborsCartesian | mpibackup10.c:143-169 | every worker's left/right/up/down entry follows the non-periodic Cartesian rule |
| Partition.NeighborsInRangeAndDistinct | mpibackup10.c:143-169 | every present neighbour is a valid rank, and the present neighbours of a worker are pairwise distinct |
| Partition.RightLeftSymmetric | mpibackup10.c:153-162 | j is i's right neighbour exactly when i is j's left neighbour |
| Partition.DownUpSymmetric | mpibackup10.c:145-152 | j is below i exactly when i is above j |
| Partition.MasterNeighbors | mpibackup10.c:179-186 | the master, block (0, 0), never has a left or an up neighbour; `Partition.MasterMatchesRule` states when the rest agrees with the rule |
| Partition.MasterMatchesRule | mpibackup10.c:179-186 | the master's hard-coded neighbours equal the general rule at rank 0 whenever W == 1 or both grid sides are at least 2 |
| Partition.MasterRuleDiffersForTwoWorkers | mpibackup10.c:179-186 | with a 2 x 1 grid the hard-coded `right = 1` (line 184) names a neighbour the rule does not give rank 0, while the hard-coded `down = ydim = 1` agrees with the rule; W = 2 is prime and rejected first |
| Partition.NeighborTable | mpibackup10.c:143-186 | one entry per worker; `Partition.AcceptedTableCartesian` states that on every accepted launch each entry follows the Cartesian rule |
| Partition.Launch | mpibackup10.c:90-139 | the launch is refused exactly when W is prime, or else when W does not divide NX*NY; an accepted launch carries the grid the scan of lines 120-133 picks (`Partition.FactorPair`) and the truncated block shape |
| Partition.AcceptedTableCartesian | mpibackup10.c:143-186 | for every accepted launch, every entry of the neighbour table, the master's included, follows the Cartesian rule |
| Distribute.ComputeDispls | mpibackup10.c:249-257 | the loop gives block (i, j) the displacement i*rows*ydim + j, in units of the `columns`-float extent |
| Distribute.AsWritten | mpibackup10.c:249-257 | the program's placement, with no contract of its own; `Distribute.ComputeDispls` states its displacements, and `Distribute.AsWrittenPlacesBlocks` and `Distribute.DriftMisplaces` state where its items land |
| Distribute.AsWrittenPlacesBlocks | mpibackup10.c:222-261 | when ydim*columns == NY, the send item of worker i*ydim+j starts at field row i*rows, column j*columns, and walks NY-wide rows |
| Distribute.CorrectedPlacesBlocks | mpibackup10.c:249-257 | the corrected displacements place every block at its field position for every NY |
| Distribute.SameOffsetsScatter | mpibackup10.c:261 | two placements that name the same cells of u scatter the same blocks |
| Distribute.SameOffsetsGather | mpibackup10.c:365 | two placements that name the same cells of u gather the same field |
| Distribute.AsWrittenAgreesWhenExact | mpibackup10.c:249-261 | when ydim*columns == NY the program's displacements and the corrected ones scatter the same blocks and gather the same field |
| Distribute.PlacedFits | mpibackup10.c:222-261 | a placement with the intended geometry keeps every send item inside u |
| Distribute.AsWrittenFits | mpibackup10.c:222-261 | the program's displacements never address outside u, with or without drift |
| Distribute.Scatter | mpibackup10.c:261 | one block per displacement; `Distribute.ScatterPlacesCells` and `Distribute.ScatterCell` state what each block holds |
| Distribute.ScatterPlacesCells | mpibackup10.c:261 | after the scatter worker k's owned cell (1+r, 1+c) holds u at its field position; halo cells keep their prior value |
| Distribute.ScatterCell | mpibackup10.c:214-261 | a scattered block holds, at interior cell (x, y), u at the offset its send item names for (x-1, y-1), and zero on the halo ring |
| Distribute.ScatteredValues | mpibackup10.c:261-365 | the message a worker sends back right after the scatter carries u at exactly the offsets the gather will store it to |
| Distribute.PlacedInjective | mpibackup10.c:222-261 | with the intended geometry, distinct (worker, row, column) triples come from distinct cells of u |
| Distribute.PlacedDisjoint | mpibackup10.c:222-261 | with the intended geometry no two send items overlap |
| Distribute.Gather | mpibackup10.c:365 | the gathered u keeps its length; `Distribute.GatherPlacesBlocks` and `Distribute.GatherScatterIdentity` state what it holds |
| Distribute.WriteItemsAt | mpibackup10.c:365 | storing the workers' messages in rank order leaves every offset with its own value when no offset repeats, and cells no item names unchanged |
| Distribute.GatherScatterIdentity | mpibackup10.c:261-365 | gathering the blocks right after the scatter gives u back, for any placement inside u, drift or not |
| Distribute.GatherStoresBlocks | mpibackup10.c:365 | for a disjoint placement the gather stores interior cell (1+r, 1+c) of worker k at its send offset and leaves unsent cells alone |
| Distribute.GatherPlacesBlocks | mpibackup10.c:365 | with the intended geometry the gather puts every block's interior at its field position, and the truncated remainder rows and columns keep their values |
| Distribute.GatherKeepsUnsent | mpibackup10.c:365 | cells that no send item covers come back from the gather unchanged, whatever the placement |
| Distribute.DriftDispls | mpibackup10.c:249-257 | the loop's displacements for a 2 x 2 grid of 2-row blocks are 0, 1, 4, 5 |
| Distribute.DriftMisplaces | mpibackup10.c:249-257 | on a 4 x 3 field with 2 x 1 blocks, worker 2's item starts at offset 4 instead of its block's offset 6 |
| Distribute.DriftOverlaps | mpibackup10.c:249-257 | on that field, worker 1's and worker 2's items share a cell of u |
| Distribute.DriftUnsent | mpibackup10.c:249-257 | on that field, field cell (2, 0) is in no send item |
| Distribute.AsWrittenLosesCell | mpibackup10.c:249-257 | on that field, field cell (2, 0) comes back from the gather with its old value, whatever worker 2 computed |
| Distribute.CorrectedKeepsCell | mpibackup10.c:249-257 | with the corrected displacements, field cell (2, 0) comes back holding worker 2's first owned cell |
| Halo.RecvRegion | mpibackup10.c:308-311 | a receive region holds `rows` floats for a column and `columns` for a row; `Halo.RecvRegionCells` states which cells |
| Halo.SendRegion | mpibackup10.c:314-317 | a send region holds `rows` floats for a column and `columns` for a row; `Halo.SendRegionCells` states which cells |
| Halo.RecvRegionCells | mpibackup10.c:276-286 | the four receive regions are the left and right halo columns (rows 1..rows) and the bottom and top halo rows (columns 1..columns), in order |
| Halo.SendRegionCells | mpibackup10.c:276-291 | the four send regions are the first and last owned columns and the first and last owned rows, in order |
| Halo.MatchedLengths | mpibackup10.c:283-291 | every send is exactly as long as the receive its neighbour posts on the opposite side |
| Halo.Alignment | mpibackup10.c:308-317 | the k-th value received on side d comes from the field cell of the neighbour's k-th sent value, which is the field cell just across the border |
| Halo.RegionsOnRingAndOwned | mpibackup10.c:283-291 | receives write only the halo ring and never a corner; sends read only owned cells |
| Halo.RecvDisjoint | mpibackup10.c:308-311 | the four receive regions are pairwise disjoint, and no region names a cell twice |
| Halo.RecvCellOnRecv | mpibackup10.c:308-311 | each receive region lies on the halo line it faces, and mirrors its neighbour's border cell |
| Halo.OnRecvIsRecvCell | mpibackup10.c:308-311 | every cell of a halo line is written by the receive on that side |
| Halo.WriteRegionAt | mpibackup10.c:308-311 | unpacking a message into distinct offsets leaves each offset with its own value and every other cell unchanged |
| Halo.Receive | mpibackup10.c:308-311 | one receive keeps the block's shape; `Halo.ReceiveSpec` states what it writes |
| Halo.ReceiveSpec | mpibackup10.c:308-311 | a receive sets exactly the halo line facing d to the neighbour's opposite border and changes no other cell |
| Halo.ReceiveWrites | mpibackup10.c:308-311 | the k-th cell of the receive region gets the neighbour's k-th send cell, and every cell off the receive line keeps its value |
| Halo.ReceiveKeeps | mpibackup10.c:308-311 | a receive leaves every cell off the halo line it faces unchanged |
| Halo.ExchangeBlock | mpibackup10.c:308-317 | one worker's four receives keep its block's shape; `Halo.ExchangeBlockSpec` states what each cell holds afterwards |
| Halo.ExchangeBlockSpec | mpibackup10.c:308-317 | after one exchange a halo line facing a worker holds that worker's border; a line facing MPI_PROC_NULL, the corners and the owned cells are unchanged |
| Halo.Exchange | mpibackup10.c:308-317 | every worker keeps one block of its shape; `Halo.ExchangeKeepsOwned` and `Halo.ExchangeIdempotent` state what the exchange preserves |
| Halo.ExchangeKeepsOwned | mpibackup10.c:283-317 | the exchange never changes an owned cell of any worker |
| Halo.ExchangeIdempotent | mpibackup10.c:283-317 | exchanging a second time changes nothing: owned cells are unchanged, so the same borders are sent again |
| Halo.ExchangeBlockAgain | mpibackup10.c:283-317 | one worker's block is unchanged by a second exchange whose neighbours kept their owned cells |
| Stencil.Span | mpibackup10.c:413-414 | an inner `iy` loop visits exactly the cells of row x between lo and hi |
| Stencil.ColumnSpan | mpibackup10.c:501-553 | a column loop with `<` visits exactly the cells of column y from lo up to but not including hiExcl |
| Stencil.InternalCells | mpibackup10.c:408-424 | every cell updateInternal writes lies in rows start..end and columns 2..ny-1; `Stencil.InternalCellsExact` gives the converse |
| Stencil.InternalCellsExact | mpibackup10.c:408-424 | updateInternal(start, end, ny) writes exactly the rows start..end and columns 2..ny-1 |
| Stencil.ExternalCells | mpibackup10.c:432-554 | the cells updateExternal writes, with no contract of its own; `Stencil.StepCellsExact` states that with the interior pass they are exactly the cells that must be updated |
| Stencil.StepCellsExact | mpibackup10.c:321-331 | for blocks of sound size the two passes together write exactly the owned cells off the domain edge |
| Stencil.TwoRowBlockWritesDomainEdge | mpibackup10.c:444-496 | the size condition is needed: a lone 2 x 3 block gets a domain-edge cell written by the border pass |
| Stencil.Point | mpibackup10.c:415-421 | a cell whose four neighbours hold its own value keeps that value; `Stencil.PointCongruent` states that only those five cells matter |
| Stencil.ApplyAt | mpibackup10.c:415-421 | after a pass each listed cell holds the five-point update of the current buffer; unlisted cells keep the next buffer's value |
| Stencil.StepCellsWritable | mpibackup10.c:321-331 | the writes of both passes stay inside the owned cells |
| Stencil.PassesWritable | mpibackup10.c:321-331 | each pass on its own, interior and border, writes only owned cells |
| Stencil.StencilStep | mpibackup10.c:321-331 | a worker's step keeps the block's shape; `Stencil.StencilStepSpec` states what every cell holds afterwards |
| Stencil.StencilStepSpec | mpibackup10.c:321-331 | a worker's step writes the five-point update exactly at the cells the reference says must be updated and leaves the rest of the next buffer alone |
| Stencil.InternalReadsOwned | mpibackup10.c:321 | the interior pass reads only owned cells: its cells and their four neighbours are never halo cells |
| Stencil.PointCongruent | mpibackup10.c:415-421 | the five-point update at a cell depends only on that cell and its four neighbours |
| Stencil.InternalIgnoresHalo | mpibackup10.c:320-331 | the interior pass gives the same result whatever the halo holds, so running it while the receives are in flight is sound |
| Simulation.SourceBuffer | mpibackup10.c:304 | newiz is a buffer index, 0 or 1; `Simulation.BufferParity` states which buffer each step reads |
| Simulation.DestBuffer | mpibackup10.c:321-331 | the buffer a step writes is a buffer index and never the one it reads; `Simulation.BufferParity` states the alternation |
| Simulation.BufferParity | mpibackup10.c:303-364 | each step writes the buffer the next step reads; step 1 reads buffer 0, and the last-written buffer is STEPS % 2, the one gathered |
| Simulation.FieldCellInField | mpibackup10.c:138-139 | every owned cell of every worker maps to a cell inside the xdim*rows x ydim*columns field |
| Simulation.SideWorker | mpibackup10.c:143-169 | under the Cartesian rule the worker named on side d sits one block-grid step from k in direction d |
| Simulation.UpdatedIffInterior | mpibackup10.c:444-553 | a block's owned cell is updated exactly when its field cell is off the domain edge |
| Simulation.SoundSizeSized | mpibackup10.c:321-331 | under the Cartesian rule, block sizes sound for the block grid are sound for every worker's own neighbours |
| Simulation.HaloHolds | mpibackup10.c:308-317 | after the exchange, a halo cell facing a worker holds the field value of the field cell it mirrors |
| Simulation.ExchangedPartner | mpibackup10.c:308-317 | a halo cell on a line facing a worker takes exactly that worker's partner cell, since the four receive lines do not overlap |
| Simulation.PartnerCell | mpibackup10.c:308-317 | the worker on side d owns the partner of a halo cell on that side, and that partner is the same field cell |
| Simulation.ExchangeReadsField | mpibackup10.c:308-317 | after the exchange every cell the passes read holds the field: owned cells keep it, and halo lines facing a worker get that worker's copy |
| Simulation.PointHolds | mpibackup10.c:415-421 | at an updated cell the block's five-point update equals the field's five-point update at the matching field cell, with that cell off the domain edge |
| Simulation.CellStepHolds | mpibackup10.c:321-331 | once the cells the passes read hold the field and the destination agrees with it on the domain edge, both passes leave every owned cell equal to the serial heat2D update of its field cell |
| Simulation.PassesHold | mpibackup10.c:321-331 | under the same conditions the destination buffer of every worker holds the stepped field |
| Simulation.EdgeKept | mpibackup10.c:321-331 | the serial step leaves the domain edge alone, so the source buffer still agrees with the stepped field on the domain edge |
| Simulation.ParallelStep | mpibackup10.c:321-331 | both passes of every worker keep one block per worker, each of its shape; `Simulation.StepHolds` states that together they are one serial step |
| Simulation.StepHolds | mpibackup10.c:303-331 | one parallel step is one serial step: if the source buffer holds the field and the destination agrees on the domain edge, the destination holds the next field |
| Simulation.Iterate | mpibackup10.c:303-331 | one iteration keeps every worker's two buffers shaped; `Simulation.IterateHolds` states what they hold |
| Simulation.IterateHolds | mpibackup10.c:303-331 | iteration it moves the invariant from buffer newiz holding the field to buffer 1 - newiz holding one more serial step, with newiz agreeing on the domain edge |
| Simulation.Run | mpibackup10.c:303-357 | n iterations keep every worker's two buffers shaped; `Simulation.RunHolds` states the loop invariant |
| Simulation.RunHolds | mpibackup10.c:303-357 | loop invariant: after n iterations buffer n % 2 holds n serial steps and the other buffer agrees on the domain edge |
| Simulation.ScatterHolds | mpibackup10.c:261 | right after the scatter, buffer 0's owned cells hold the field |
| Simulation.ExchangedHolds | mpibackup10.c:283-294 | the start-up exchange leaves buffer 0 holding the field |
| Simulation.ZeroBlocks | mpibackup10.c:213-217 | one all-zero haloed block per worker; `Simulation.ZeroEdgesAgree` states what that gives on the domain edge |
| Simulation.ZeroEdgesAgree | mpibackup10.c:213-217 | the all-zero buffer 1 agrees on the domain edge with any field that is zero there |
| Simulation.StartWorkers | mpibackup10.c:213-294 | start-up gives every worker two haloed buffers, for any placement that stays inside u; `Simulation.StartHolds` states what they hold |
| Simulation.StartHolds | mpibackup10.c:213-294 | after start-up buffer 0 holds the field and buffer 1 agrees with it on the domain edge, when the field is zero there |
| Simulation.CellOwner | mpibackup10.c:138-139 | every field cell of an exact tiling is owned by one worker k, at cell (1+r, 1+c), and is sent from that cell's offset |
| Simulation.GatherHolds | mpibackup10.c:364-365 | gathering blocks whose owned cells hold a field stores that field back into u |
| Simulation.Simulate | mpibackup10.c:213-365 | for any placement that stays inside u, tiling or not, the gathered field has as many cells as u; `Simulation.SimulateIsSerial` states that it is the serial update applied n times |
| Simulation.SimulateIsSerial | mpibackup10.c:213-365 | the program's gathered field after n iterations equals the serial heat2D update applied n times, cell for cell, for edge-zero fields, exact tilings, Cartesian tables and every placement with the intended geometry |
| Simulation.Inidat | mpibackup10.c:560-566 | one initial value per field cell; `Simulation.InidatEdgeZero` states that the field is zero on its edge and nowhere negative |
| Simulation.InidatEdgeZero | mpibackup10.c:560-566 | inidat's field is zero on the domain edge and nowhere negative |
| Simulation.Heat2D | mpibackup10.c:90-365 | main as built is defined for every accepted launch with sound block sizes, exact or not (with the rank-order gather where send items overlap), and returns a field of NXPROB x NYPROB cells; `Simulation.ProgramIsSerial` states what it holds on exact tilings |
| Simulation.ProgramIsSerial | mpibackup10.c:90-365 | whenever the accepted launch tiles the 256 x 320 field exactly with sound block sizes, the program, scattering and gathering through its own displacements, computes STEPS serial steps of inidat's field |
| Simulation.ExactSetup | mpibackup10.c:143-257 | an exact launch gives a Cartesian neighbour table with one entry per block, and the program's own displacements then put every block at its field position |
| Simulation.FourWorkersExact | mpibackup10.c:90-139 | four workers are accepted with a 2 x 2 grid of 128 x 160 blocks, which tile the field exactly |
| Simulation.FortyWorkersGrid | mpibackup10.c:117-133 | the scan picks a 5 x 8 grid for forty workers on the 256 x 320 field |
| Simulation.FortyWorkersLaunch | mpibackup10.c:90-139 | forty workers are accepted with a 5 x 8 grid of 51 x 40 blocks |
| Simulation.FortyWorkersRun | mpibackup10.c:90-365 | that launch leaves row 255 outside every block, so it is not exact, yet the modelled run of main is defined for it |
| Simulation.WideGridOverlaps | mpibackup10.c:249-257 | on the built field the program's displacements for a 64 x 128 grid of 4 x 2 blocks, a sound size, make two send items start at the same cell, so the gather of line 365 receives two values for it |
| Simulation.DriftLaunch | mpibackup10.c:90-139 | the launch checks accept four workers on a 4 x 3 field, with the drifting 2 x 2 grid of 2 x 1 blocks |
| Simulation.ExchangeAlone | mpibackup10.c:283-317 | a worker with no neighbours keeps its block through the exchange |
| Simulation.UniformSerial | mpibackup10.c:415-421 | the serial update keeps a uniform 3 x 3 field uniform |
| Simulation.UniformFieldNotKept | mpibackup10.c:213-331 | the program does not keep a uniform 3 x 3 field of 5.0 on one worker: after two iterations the centre is 3.0, while the serial update keeps 5.0 |

## Left out

- MPI semantics are out: point-to-point matching, non-blocking completion and waits, `MPI_Cart_create`, the barrier and the timer. The model keeps the index regions the calls address. It treats an exchange as every worker reading the blocks as they were before it, which is what completed transfers give.
- The persistent requests are started and waited once before the loop (lines 283-294) and never reused. The model has that single exchange of buffer 0, before the first iteration.
- The scatter's receive count `columns*rows` (line 261) differs from the gather's count of 1 (line 365). The model places `rows x columns` elements per worker both ways, the amount one `recvsubarrtype` describes.
- OpenMP threads and `schedule(static,1)` are out. Each pass writes cells that no cell of the same pass reads, so the order of writes does not matter; `Stencil.ApplyAt` states the result for the sequential order.
- Floating point is out: values are mathematical reals. `float` rounding, and the `(float)` conversion in inidat, are taken as exact.
- I/O is out: `prtdat`, `printf`, the files `initial.dat` and `final.dat`, and the `#if 0` debug dump.
- Command-line parsing of the thread count (`strtol`) is out. It affects only the OpenMP pool size.
- `malloc2darr`'s failure paths, `free2darr` and the freeing of the MPI types are out. The model's sequences always exist.
- Primality.IsPrime: the 32-bit overflow of `i*i` is not modelled. For the worker counts MPI can launch it never occurs.
- Partition.ISqrt: the double-precision `sqrt` is modelled as the exact integer square root. The two agree for all integers below 2^52.
- Simulation.SimulateIsSerial: the theorem assumes an exact tiling, a field that is zero on its edge, sound block sizes (`SoundSize`) and a placement with the intended geometry (`Distribute.PlacesBlocks`), which the program's own displacements have on every exact tiling. For a non-exact tiling, the truncated rows and columns are shown to keep their values (`Distribute.GatherPlacesBlocks`), and the drift is under Findings. Without the exact-tiling assumption the drift under Findings can misplace blocks, and without the zero-edge assumption the program and the serial update disagree (`Simulation.UniformFieldNotKept`).
- Stencil.StencilStepSpec: it requires `Sized` blocks: at least two rows and two columns; at least three rows when neither the up nor the down side has a neighbour; and at least three columns when neither the left nor the right side has one. `Stencil.TwoRowBlockWritesDomainEdge` shows what goes wrong below that size. The launch checks also accept blocks of one row or one column: 40960 workers on 256 x 320 give a 160 x 256 grid of 1 x 1 blocks. For such a block the haloed allocation has rows 0 to 2, and updateExternal is called with start 1 and end 3. With no up neighbour the first-row pass updates row start+1 = 2 and reads row 3 (lines 444-467). With no down neighbour the last-row pass updates row end-3 = 0 and reads row -1 (lines 474-496). Both reads fall outside the allocation. `Sized` excludes this out-of-bounds behaviour of the source, and the model does not describe it.
- Distribute.Gather: when send items overlap, which the drift under Findings causes on some accepted launches, MPI_Gatherv is erroneous and its result undefined. The model stores the messages in rank order, so the later rank's value wins (`Distribute.WriteItems`). An example is 8192 workers on 256 x 320: a 64 x 128 grid of 4 x 2 blocks with sound sizes, where worker 32's send row 3 and worker 128's send row 0 both start at offset 1024 (`Simulation.WideGridOverlaps`). No lemma depends on which value wins. `Distribute.GatherStoresBlocks` and `Distribute.GatherPlacesBlocks` assume disjoint items. `Distribute.GatherKeepsUnsent` and `Distribute.AsWrittenLosesCell` concern cells no item covers. `Distribute.GatherScatterIdentity` holds because overlapping items carry the same value of u. So `Simulation.Heat2D` on such launches is the model's choice, not a defined result of the program.
- Simulation.Simulate: the run is modelled only for sound block sizes (`SoundSize`), because below them the passes of the source write the domain edge or index outside the block (see the previous line). Simulation.StartWorkers and Simulation.Heat2D carry the same condition.
- `Simulation.Simulate` models the master's table for every worker. Workers receive their neighbours from the master by message, and the model takes the table as delivered.

## Findings

| source | as written | input that shows it | evidently intended | confidence | as-written member | corrected member |
|---|---|---|---|---|---|---|
| mpibackup10.c:249-257 | the displacement of each block-row grows by `(rows-1)*ydim` extents of `columns` floats, which skips `rows` whole field rows only when `ydim*columns == NY` | four workers on a 4 x 3 field: a 2 x 2 grid of 2 x 1 blocks, accepted by the launch checks (`Simulation.DriftLaunch`); worker 2's item starts at field cell (1, 1) instead of (2, 0), and cell (2, 0) is never gathered. The built 256 x 320 field with 8192 workers (64 x 128 grid, 4 x 2 blocks) also drifts | block-row i starts at field row i*rows, i.e. displacement `i*rows*NY/columns + j` when columns divides NY, or a send type whose extent is one float | not executed | Distribute.DriftMisplaces, Distribute.AsWrittenLosesCell | Distribute.CorrectedPlacesBlocks, Distribute.CorrectedKeepsCell |
