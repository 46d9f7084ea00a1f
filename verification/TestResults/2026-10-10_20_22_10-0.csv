TestResult.DisplayName,TestResult.Outcome,TestResult.Duration,TestResult.ResourceCount,RandomSeed
DataSection.MemHandle (correctness),Failed,00:00:00.7532851,2109323,1
